/** Properties of whole runs: restart, repeated sync, repair, fleets of replicas, and any mix of
    operations that only register. */
module Runs {
  import opened Outcomes
  import opened CatalogState
  import opened Catalogs
  import opened Config
  import opened Storage
  import opened View
  import opened Syncs
  import opened Resolvers
  import opened Replication

  /** The value a history leads to, from an earlier point of it. */
  lemma RunFrom(rk: Ranking, before: seq<Step>, now: seq<Step>, names: set<string>)
    requires OnlyRegisters(before, now, names)
    ensures Run(rk, EMPTY, now) == Run(rk, Run(rk, EMPTY, before), now[|before|..])
    ensures AllRegister(now[|before|..]) && Over(now[|before|..], names)
  {
    RegistersSince(before, now, names);
    RunConcat(rk, EMPTY, before, now[|before|..]);
  }

  /** After a pass, a valid catalog that was orderly is orderly again, under unnested names. */
  lemma PassKeepsHistoryOrderly(bs: seq<Bucket>, before: seq<Step>, st: Objects, pass: seq<Step>)
    requires Unnested(StorageNames(bs)) && IsPartialPass(bs, st, pass)
    requires var s := Run(RankingOf(bs), EMPTY, before); Consistent(s) && OwnersIn(s, StorageNames(bs))
    ensures Orderly(bs, Run(RankingOf(bs), EMPTY, before + pass))
  {
    RunWellFormed(RankingOf(bs), EMPTY, before);
    RunConcat(RankingOf(bs), EMPTY, before, pass);
    PassKeepsOrderly(bs, Run(RankingOf(bs), EMPTY, before), st, pass);
  }

  // ---------------------------------------------------------------------------------------
  // Restart
  // ---------------------------------------------------------------------------------------

  lemma {:induction false} StoredManifestsTranscribe(bs: seq<Bucket>, s: State, st: Objects)
    requires Persisted(bs, s, st)
    ensures forall m <- StoredManifests(bs, st) :: Transcribes(s, m)
    ensures forall b <- bs | b.HasStorage() :: exists m :: m in StoredManifests(bs, st) && m.bucket == b.name
  {
    if bs == [] {
    } else {
      var n := |bs| - 1;
      StoredManifestsTranscribe(bs[..n], s, st);
      assert bs == bs[..n] + [bs[n]];
      var head := StoredManifests(bs[..n], st);
      var last := BucketManifest(bs[n].name, Content(st, bs[n].name, bs[n].manifestKey));
      if bs[n].HasStorage() {
        assert SlotLists(s, st, bs[n]);
        assert StoredManifests(bs, st) == head + [last];
        assert last in StoredManifests(bs, st);
      }
      forall b | b in bs && b.HasStorage() ensures exists m :: m in StoredManifests(bs, st) && m.bucket == b.name {
        if b != bs[n] {
          var m :| m in head && m.bucket == b.name;
          assert m in StoredManifests(bs, st);
        }
      }
    }
  }

  /** What PersistManifests wrote, LoadManifests reads back exactly. */
  lemma PersistedReloads(bs: seq<Bucket>, s: State, st: Objects)
    requires WellFormed(RankingOf(bs), s) && Consistent(s)
    requires Persisted(bs, s, st) && OwnersIn(s, StorageNames(bs)) && "" !in s.byKey
    ensures Loaded(RankingOf(bs), StoredManifests(bs, st)) == s
  {
    StoredManifestsTranscribe(bs, s, st);
    TranscriptsReloadIff(RankingOf(bs), s, StoredManifests(bs, st));
  }

  /** Restart is transparent: persisting and bootstrapping a fresh process leads to the same
      catalog, routes and duplicate count as syncing the old process. */
  method Restart(running: Resolver, restarted: Resolver) returns (ok: bool)
    requires running.Valid() && restarted.Valid()
    requires running.cfg == restarted.cfg && running.store == restarted.store
    requires running != restarted && running.catalog != restarted.catalog
    requires DistinctNames(running.cfg) && Unnested(StorageNames(running.cfg))
    requires Consistent(running.catalog.Value()) && OwnersIn(running.catalog.Value(), StorageNames(running.cfg))
    requires "" !in running.catalog.byKey
    modifies running.store, running.catalog, running`duplicateCount, restarted.catalog, restarted`duplicateCount
    ensures running.Valid() && restarted.Valid()
    ensures running.store.failures == old(running.store.failures) ==> ok
    ensures ok ==>
              running.catalog.Value() == restarted.catalog.Value() && running.duplicateCount == restarted.duplicateCount
  {
    ghost var bs, rk, s := running.cfg, RankingOf(running.cfg), running.catalog.Value();
    ghost var h, g := running.catalog.history, restarted.catalog.history;
    RunWellFormed(rk, EMPTY, h);
    ok := running.PersistManifests();
    if !ok {
      return;
    }
    ghost var st, p, q := running.store.objects, [], [];
    PersistedReloads(bs, s, st);
    ok, p := restarted.Bootstrap();
    if !ok {
      return;
    }
    ghost var loaded := g + [Step.Clear] + RecordSteps(StoredManifests(bs, st));
    RunAfterClear(rk, g, RecordSteps(StoredManifests(bs, st)));
    PassKeepsHistoryOrderly(bs, loaded, st, p);
    ghost var st2 := running.store.objects;
    ok, q := running.SyncRegistry();
    if ok {
      PassKeepsHistoryOrderly(bs, h, st2, q);
      SameSync(bs, s, st, restarted.catalog.Value(), st2, running.catalog.Value());
      SameDuplicates(bs, st, st2);
      EntriesDetermineRoutes(running.catalog.Value(), restarted.catalog.Value());
    }
  }

  /** Syncs from the same catalog over the same files end alike. */
  lemma SameSync(bs: seq<Bucket>, s: State, a: Objects, t: State, b: Objects, u: State)
    requires DistinctNames(bs) && SameFiles(bs, a, b) && IsSynced(bs, s, a, t) && IsSynced(bs, s, b, u)
    ensures t.byKey == u.byKey
  {
    forall k: string ensures Lookup(t, k) == Lookup(u, k) {
      SameIdeal(bs, a, b, k);
    }
    SameLookups(t, u);
  }

  // ---------------------------------------------------------------------------------------
  // Repeated sync
  // ---------------------------------------------------------------------------------------

  /** An immediate second sync changes no entry, nor the duplicate count; if no owner ranks below a
      storage bucket whose name nests with its own, it changes no route either. */
  method SyncTwice(r: Resolver) returns (ok: bool, ghost first: seq<Step>)
    requires r.Valid() && DistinctNames(r.cfg)
    modifies r.catalog, r.store, r`duplicateCount
    ensures r.Valid()
    ensures r.store.failures == old(r.store.failures) ==> ok
    ensures ok ==> IsPass(r.cfg, old(r.store.objects), first)
    ensures ok ==> r.catalog.byKey == Run(RankingOf(r.cfg), old(r.catalog.Value()), first).byKey
    ensures ok ==> r.duplicateCount == |Duplicates(r.cfg, old(r.store.objects))|
    ensures ok && Apart(r.cfg, Owners(old(r.catalog.Value()))) ==>
              r.catalog.Value() == Run(RankingOf(r.cfg), old(r.catalog.Value()), first)
    ensures ok && Sound(r.cfg, old(r.store.objects), old(r.catalog.Value())) ==>
              IsIdeal(r.cfg, old(r.store.objects), r.catalog.Value())
  {
    ghost var h, st := r.catalog.history, r.store.objects;
    ok, first := r.SyncRegistry();
    if ok {
      ghost var mid, second := r.store.objects, [];
      ok, second := r.SyncRegistry();
      if ok {
        SecondSync(r.cfg, h, st, first, mid, second);
        SameDuplicates(r.cfg, st, mid);
      }
    }
  }

  /** What two complete passes over the same files lead to, from any history. */
  lemma SecondSync(bs: seq<Bucket>, h: seq<Step>, a: Objects, p: seq<Step>, b: Objects, q: seq<Step>)
    requires DistinctNames(bs) && SameFiles(bs, a, b) && IsPass(bs, a, p) && IsPass(bs, b, q)
    ensures var rk := RankingOf(bs);
            var s, u := Run(rk, EMPTY, h), Run(rk, EMPTY, h + p + q);
            var t := Run(rk, s, p);
            && u.byKey == t.byKey
            && (Apart(bs, Owners(s)) ==> u == t)
            && (Sound(bs, a, s) ==> IsIdeal(bs, a, u))
  {
    var rk := RankingOf(bs);
    var s := Run(rk, EMPTY, h);
    var t := Run(rk, s, p);
    RunWellFormed(rk, EMPTY, h);
    RunConcat(rk, EMPTY, h, p);
    PassResult(bs, h, a, p);
    PassResult(bs, h + p, b, q);
    SyncIsIdempotent(bs, s, a, t, b, Run(rk, EMPTY, h + p + q));
    if Apart(bs, Owners(s)) {
      SecondPassChangesNothing(bs, s, a, p, b, q, Owners(s));
    }
    if Sound(bs, a, s) {
      SyncFromSound(bs, s, a, t);
      SameEntriesAreIdeal(bs, a, t, Run(rk, EMPTY, h + p + q));
    }
  }

  lemma SameEntriesAreIdeal(bs: seq<Bucket>, st: Objects, t: State, u: State)
    requires IsIdeal(bs, st, t) && u.byKey == t.byKey
    ensures IsIdeal(bs, st, u)
  {
    forall k: string ensures Lookup(u, k) == Ideal(bs, st, k) {
      assert Lookup(u, k) == Lookup(t, k);
    }
  }

  // ---------------------------------------------------------------------------------------
  // Fleets
  // ---------------------------------------------------------------------------------------

  /** Several processes over one storage. */
  datatype Fleet = Fleet(catalogs: seq<State>, st: Objects)

  /** One replica gets to one bucket in the course of some sync, which may end there. */
  datatype Visit = Visit(replica: nat, bucket: nat)

  /** The visiting replica settles what that bucket is the first to keep; manifests may be
      overwritten meanwhile, by any replica. */
  ghost predicate FleetStep(bs: seq<Bucket>, a: Fleet, v: Visit, b: Fleet) {
    && v.replica < |a.catalogs| == |b.catalogs|
    && Settles(bs, a.st, v.bucket, a.catalogs[v.replica], b.catalogs[v.replica]) && SameFiles(bs, a.st, b.st)
    && forall j | 0 <= j < |a.catalogs| && j != v.replica :: b.catalogs[j] == a.catalogs[j]
  }

  /** Any interleaving of the replicas' syncs, complete or not, bucket by bucket. */
  ghost predicate FleetRun(bs: seq<Bucket>, fleets: seq<Fleet>, visits: seq<Visit>) {
    |fleets| == |visits| + 1 && forall n | 0 <= n < |visits| :: FleetStep(bs, fleets[n], visits[n], fleets[n + 1])
  }

  lemma SameFilesChain(bs: seq<Bucket>, a: Objects, b: Objects, c: Objects)
    requires SameFiles(bs, a, b) && SameFiles(bs, b, c)
    ensures SameFiles(bs, a, c)
  {
  }

  lemma IdealUpToManifests(bs: seq<Bucket>, a: Objects, b: Objects, s: State)
    requires DistinctNames(bs) && SameFiles(bs, a, b) && IsIdeal(bs, b, s)
    ensures IsIdeal(bs, a, s)
  {
    forall k: string ensures Lookup(s, k) == Ideal(bs, a, k) {
      SameIdeal(bs, a, b, k);
    }
  }

  /** The keys whose first keepers a replica has visited are as the ideal view has them. */
  ghost predicate IdealWhere(bs: seq<Bucket>, st: Objects, s: State, visits: seq<Visit>, j: nat) {
    forall k: string | Visit(j, FirstKeeper(bs, st, k)) in visits :: Lookup(s, k) == Ideal(bs, st, k)
  }

  /** One more visit, over storage that may differ in manifests. */
  lemma VisitProgress(bs: seq<Bucket>, st: Objects, now: Objects, s: State, t: State, visits: seq<Visit>, v: Visit)
    requires DistinctNames(bs) && SameFiles(bs, st, now) && Settles(bs, now, v.bucket, s, t)
    requires Sound(bs, st, s) && IdealWhere(bs, st, s, visits, v.replica)
    ensures Sound(bs, st, t) && IdealWhere(bs, st, t, visits + [v], v.replica)
  {
    SoundUpToManifests(bs, st, now, s);
    forall k: string
      ensures Lookup(t, k) == if FirstKeeper(bs, st, k) == v.bucket then Ideal(bs, st, k) else Lookup(s, k)
    {
      SameIdeal(bs, st, now, k);
      SoundKeySyncs(bs, s, now, k);
      assert Lookup(t, k) == if FirstKeeper(bs, now, k) == v.bucket then Synced(bs, s, now, k) else Lookup(s, k);
    }
    KeptOrIdealIsSound(bs, s, st, t);
    forall k: string | Visit(v.replica, FirstKeeper(bs, st, k)) in visits + [v]
        ensures Lookup(t, k) == Ideal(bs, st, k) {
      if FirstKeeper(bs, st, k) != v.bucket {
        assert Visit(v.replica, FirstKeeper(bs, st, k)) in visits;
      }
    }
  }

  lemma {:induction false} FleetProgress(bs: seq<Bucket>, fleets: seq<Fleet>, visits: seq<Visit>, j: nat)
    requires DistinctNames(bs) && FleetRun(bs, fleets, visits) && j < |fleets[0].catalogs|
    requires Sound(bs, fleets[0].st, fleets[0].catalogs[j])
    ensures var last := fleets[|visits|];
            && SameFiles(bs, fleets[0].st, last.st) && j < |last.catalogs|
            && Sound(bs, fleets[0].st, last.catalogs[j])
            && IdealWhere(bs, fleets[0].st, last.catalogs[j], visits, j)
  {
    if visits == [] {
    } else {
      var n := |visits| - 1;
      FleetProgress(bs, fleets[..n + 1], visits[..n], j);
      var a, b, st := fleets[n], fleets[n + 1], fleets[0].st;
      assert FleetStep(bs, a, visits[n], b);
      SameFilesChain(bs, st, a.st, b.st);
      assert visits == visits[..n] + [visits[n]];
      if visits[n].replica == j {
        VisitProgress(bs, st, a.st, a.catalogs[j], b.catalogs[j], visits[..n], visits[n]);
      }
    }
  }

  ghost predicate VisitedAll(bs: seq<Bucket>, visits: seq<Visit>, j: nat) {
    forall n: nat | n < |bs| :: Visit(j, n) in visits
  }

  /** A sound replica that has got to every bucket, in however many attempts, is ideal. */
  lemma VisitedAllIsIdeal(bs: seq<Bucket>, st: Objects, s: State, visits: seq<Visit>, j: nat)
    requires Sound(bs, st, s) && IdealWhere(bs, st, s, visits, j) && VisitedAll(bs, visits, j)
    ensures IsIdeal(bs, st, s)
  {
    forall k: string ensures Lookup(s, k) == Ideal(bs, st, k) {
      var i := FirstKeeper(bs, st, k);
      if i < |bs| {
        assert Visit(j, i) in visits;
      }
    }
  }

  lemma IdealsAgree(bs: seq<Bucket>, st: Objects, s: State, t: State)
    requires IsIdeal(bs, st, s) && IsIdeal(bs, st, t)
    ensures s.byKey == t.byKey
  {
    forall k: string ensures Lookup(s, k) == Lookup(t, k) {
      assert Lookup(s, k) == Ideal(bs, st, k);
    }
    SameLookups(s, t);
  }

  /** Replicas that start sound and have each got to every bucket agree, however their syncs
      interleave and wherever they fail. */
  lemma ReplicasAgree(bs: seq<Bucket>, fleets: seq<Fleet>, visits: seq<Visit>, i: nat, j: nat)
    requires DistinctNames(bs) && FleetRun(bs, fleets, visits)
    requires i < |fleets[0].catalogs| && j < |fleets[0].catalogs|
    requires VisitedAll(bs, visits, i) && VisitedAll(bs, visits, j)
    requires forall s <- fleets[0].catalogs :: Sound(bs, fleets[0].st, s)
    ensures var last := fleets[|visits|];
            && i < |last.catalogs| && j < |last.catalogs|
            && last.catalogs[i].byKey == last.catalogs[j].byKey
            && IsIdeal(bs, fleets[0].st, last.catalogs[i])
  {
    FleetProgress(bs, fleets, visits, i);
    FleetProgress(bs, fleets, visits, j);
    var last, st := fleets[|visits|], fleets[0].st;
    VisitedAllIsIdeal(bs, st, last.catalogs[i], visits, i);
    VisitedAllIsIdeal(bs, st, last.catalogs[j], visits, j);
    IdealsAgree(bs, st, last.catalogs[i], last.catalogs[j]);
  }

  /** A replica whose every entry is kept where it says, and which is ideal if it has completed a sync. */
  ghost predicate Replica(cfg: seq<Bucket>, st: Objects, r: Resolver, synced: bool)
    reads r, r.catalog
  {
    && r.Valid() && r.cfg == cfg && Sound(cfg, st, r.catalog.Value())
    && (synced ==> IsIdeal(cfg, st, r.catalog.Value()))
  }

  /** One sync of one replica, over storage in which others have rewritten manifests. */
  method SyncReplica(r: Resolver, synced: bool, ghost st: Objects) returns (ok: bool)
    requires DistinctNames(r.cfg) && SameFiles(r.cfg, st, r.store.objects) && Replica(r.cfg, st, r, synced)
    modifies r.catalog, r.store, r`duplicateCount
    ensures SameFiles(r.cfg, st, r.store.objects) && Replica(r.cfg, st, r, synced || ok)
    ensures r.store.failures >= old(r.store.failures)
    ensures r.store.failures == old(r.store.failures) ==> ok
  {
    ghost var s, now := r.catalog.Value(), r.store.objects;
    ghost var pass;
    ok, pass := r.SyncRegistry();
    SameFilesChain(r.cfg, st, now, r.store.objects);
    ReplicaSynced(r.cfg, st, now, s, r.catalog.Value(), ok);
  }

  lemma ReplicaSynced(bs: seq<Bucket>, st: Objects, now: Objects, s: State, t: State, ok: bool)
    requires DistinctNames(bs) && SameFiles(bs, st, now) && Sound(bs, st, s) && SyncedPartly(bs, s, now, t)
    requires ok ==> IsSynced(bs, s, now, t)
    ensures Sound(bs, st, t)
    ensures ok || IsIdeal(bs, st, s) ==> IsIdeal(bs, st, t)
  {
    SoundUpToManifests(bs, st, now, s);
    PartialSyncKeepsSound(bs, s, now, t);
    SoundUpToManifests(bs, now, st, t);
    if ok { SyncFromSound(bs, s, now, t); }
    if IsIdeal(bs, st, s) { IdealUpToManifests(bs, now, st, s); }
    if IsIdeal(bs, now, t) { IdealUpToManifests(bs, st, now, t); }
  }

  /** Replicas sync in any order, some of the syncs failing: every one stays sound, and those that
      completed one agree on the ideal view. */
  method RunFleet(cfg: seq<Bucket>, store: Store, rs: seq<Resolver>, schedule: seq<nat>) returns (synced: seq<bool>)
    requires DistinctNames(cfg) && forall m | 0 <= m < |schedule| :: schedule[m] < |rs|
    requires forall i | 0 <= i < |rs| :: rs[i].store == store && Replica(cfg, store.objects, rs[i], false)
    requires forall i, j | 0 <= i < j < |rs| :: rs[i] != rs[j] && rs[i].catalog != rs[j].catalog
    modifies store, rs, set r | r in rs :: r.catalog
    ensures SameFiles(cfg, old(store.objects), store.objects)
    ensures |synced| == |rs| && forall i | 0 <= i < |rs| :: Replica(cfg, old(store.objects), rs[i], synced[i])
    ensures store.failures == old(store.failures) ==> forall m | 0 <= m < |schedule| :: synced[schedule[m]]
    ensures forall i, j | 0 <= i < |rs| && 0 <= j < |rs| && synced[i] && synced[j] ::
              rs[i].catalog.byKey == rs[j].catalog.byKey
  {
    ghost var st := store.objects;
    synced := seq(|rs|, _ => false);
    for n := 0 to |schedule|
      invariant SameFiles(cfg, st, store.objects) && store.failures >= old(store.failures)
      invariant |synced| == |rs| && forall i | 0 <= i < |rs| :: Replica(cfg, st, rs[i], synced[i])
      invariant store.failures == old(store.failures) ==> forall m | 0 <= m < n :: synced[schedule[m]]
    {
      var x := schedule[n];
      var ok := SyncReplica(rs[x], synced[x], st);
      synced := synced[x := synced[x] || ok];
    }
    forall i, j | 0 <= i < |rs| && 0 <= j < |rs| && synced[i] && synced[j]
      ensures rs[i].catalog.byKey == rs[j].catalog.byKey
    {
      IdealsAgree(cfg, st, rs[i].catalog.Value(), rs[j].catalog.Value());
    }
  }

  // ---------------------------------------------------------------------------------------
  // Repair
  // ---------------------------------------------------------------------------------------

  /** Repair settles its own key at the ideal, unless it is a manifest's, and touches no other. */
  lemma RepairsToIdeal(bs: seq<Bucket>, s: State, st: Objects, now: Objects, key: string)
    requires DistinctNames(bs) && SameFiles(bs, st, now)
    ensures var t := Apply(RankingOf(bs), s, RepairStep(bs, now, key));
            && (!IsManifestKey(bs, key) ==> Lookup(t, key) == Ideal(bs, st, key))
            && forall k: string | k != key :: Lookup(t, k) == Lookup(s, k)
  {
    if !IsManifestKey(bs, key) {
      FoundIsIdeal(bs, now, key);
      SameIdeal(bs, st, now, key);
    }
  }

  /** Repairing, from any catalog however stale, every key that is on record or kept anywhere
      makes the catalog ideal on all keys that are no bucket's manifest. */
  method RepairAll(r: Resolver, keys: seq<string>) returns (ok: bool)
    requires r.Valid() && DistinctNames(r.cfg)
    requires forall k: string | k in r.catalog.byKey || Ideal(r.cfg, r.store.objects, k).Some? :: k in keys
    modifies r.catalog, r.store
    ensures r.Valid()
    ensures r.store.failures == old(r.store.failures) ==> ok
    ensures ok ==> forall k: string | !IsManifestKey(r.cfg, k) ::
              Lookup(r.catalog.Value(), k) == Ideal(r.cfg, old(r.store.objects), k)
  {
    ghost var bs, st, s0 := r.cfg, r.store.objects, r.catalog.Value();
    ok := true;
    for i := 0 to |keys|
      invariant r.Valid() && r.store.failures >= old(r.store.failures)
      invariant r.store.failures == old(r.store.failures) ==> ok
      invariant SameFiles(bs, st, r.store.objects)
      invariant ok ==> forall k: string | !IsManifestKey(bs, k) ::
                  Lookup(r.catalog.Value(), k) == if k in keys[..i] then Ideal(bs, st, k) else Lookup(s0, k)
    {
      ghost var before, s := r.store.objects, r.catalog.Value();
      var found := r.ResolveMissingFile(keys[i]);
      SameFilesChain(bs, st, before, r.store.objects);
      if found.Err? {
        ok := false;
      } else {
        RepairsToIdeal(bs, s, st, before, keys[i]);
      }
      assert keys[..i + 1] == keys[..i] + [keys[i]];
    }
    assert keys[..|keys|] == keys;
  }

  // ---------------------------------------------------------------------------------------
  // No hijack
  // ---------------------------------------------------------------------------------------

  datatype Operation =
    | Sync
    | ProxyRequest(bucket: nat, key: string, now: int)
    | VirtualRequest(bucket: nat, key: string, now: int)
    | PullRemote

  lemma NoHijackSince(rk: Ranking, before: seq<Step>, now: seq<Step>, names: set<string>, k: string)
    requires OnlyRegisters(before, now, names) && k in Run(rk, EMPTY, before).byKey
    ensures var s, t := Run(rk, EMPTY, before), Run(rk, EMPTY, now);
            && RanksNoLower(rk, s, t, k)
            && (Unnested(names) && Consistent(s) && OwnersIn(s, names) ==> KeepsOwner(rk, s, t, k))
  {
    var s := Run(rk, EMPTY, before);
    RunWellFormed(rk, EMPTY, before);
    RunFrom(rk, before, now, names);
    RegistersNeverDemote(rk, s, now[|before|..], k);
    if Unnested(names) && Consistent(s) && OwnersIn(s, names) {
      NoHijack(rk, s, now[|before|..], names, k);
    }
  }

  /** Registrations under some names are registrations under more. */
  lemma OnlyRegistersWithin(before: seq<Step>, mid: seq<Step>, now: seq<Step>, some: set<string>, names: set<string>)
    requires OnlyRegisters(before, mid, names) && OnlyRegisters(mid, now, some) && some <= names
    ensures OnlyRegisters(before, now, names)
  {
    forall i | |before| <= i < |now| ensures now[i].Register? && now[i].bucket in names {
      if i < |mid| {
        assert now[i] == mid[i];
      }
    }
  }

  /** The key is still there and its owner ranks no lower. */
  ghost predicate RanksNoLower(rk: Ranking, s: State, t: State, k: string)
    requires k in s.byKey
  {
    k in t.byKey && rk.priority(t.byKey[k].bucket) <= rk.priority(s.byKey[k].bucket)
  }

  /** ... and if the owner is the same, its route still serves it. */
  ghost predicate KeepsOwner(rk: Ranking, s: State, t: State, k: string)
    requires k in s.byKey
  {
    && RanksNoLower(rk, s, t, k)
    && (t.byKey[k].bucket == s.byKey[k].bucket ==> LookupByRoute(t, s.byKey[k].route) == Some(t.byKey[k]))
  }

  /** The names that can own a key: those on record, the configured ones and the pull target. */
  ghost function Reach(cfg: seq<Bucket>, s: State, target: string): set<string> {
    Owners(s) + Names(cfg) + {target}
  }

  /** Any run of syncs, proxy and virtual requests and pulls, failing wherever they may. */
  method RunAny(r: Resolver, p: Puller, ops: seq<Operation>)
    requires r.Valid() && p.localCatalog == r.catalog && p.localStore == r.store
    modifies r.catalog, r.store, r.fetcher, p.remote, r`duplicateCount
    ensures r.Valid()
    ensures forall k <- old(r.catalog.byKey) ::
              RanksNoLower(RankingOf(r.cfg), old(r.catalog.Value()), r.catalog.Value(), k)
    ensures Consistent(old(r.catalog.Value())) && Unnested(Reach(r.cfg, old(r.catalog.Value()), p.targetBucket)) ==>
              forall k <- old(r.catalog.byKey) ::
                KeepsOwner(RankingOf(r.cfg), old(r.catalog.Value()), r.catalog.Value(), k)
  {
    ghost var h, names := r.catalog.history, Reach(r.cfg, r.catalog.Value(), p.targetBucket);
    for i := 0 to |ops|
      invariant r.Valid()
      invariant OnlyRegisters(h, r.catalog.history, names)
    {
      ghost var mid := r.catalog.history;
      RunOne(r, p, ops[i]);
      OnlyRegistersWithin(h, mid, r.catalog.history, Names(r.cfg) + {p.targetBucket}, names);
    }
    forall k | k in old(r.catalog.byKey)
      ensures RanksNoLower(RankingOf(r.cfg), old(r.catalog.Value()), r.catalog.Value(), k)
      ensures Consistent(old(r.catalog.Value())) && Unnested(names) ==>
                KeepsOwner(RankingOf(r.cfg), old(r.catalog.Value()), r.catalog.Value(), k)
    {
      NoHijackSince(RankingOf(r.cfg), h, r.catalog.history, names, k);
    }
  }

  method RunOne(r: Resolver, p: Puller, op: Operation)
    requires r.Valid() && p.localCatalog == r.catalog && p.localStore == r.store
    modifies r.catalog, r.store, r.fetcher, p.remote, r`duplicateCount
    ensures r.Valid()
    ensures OnlyRegisters(old(r.catalog.history), r.catalog.history, Names(r.cfg) + {p.targetBucket})
  {
    match op {
      case Sync =>
        var _, _ := r.SyncRegistry();
      case ProxyRequest(b, key, now) =>
        if b < |r.cfg| && r.cfg[b].kind.Proxy? {
          var _ := r.ResolveProxyRoute(r.cfg[b], key, now);
        }
      case VirtualRequest(b, key, now) =>
        if b < |r.cfg| && r.cfg[b].kind.Virtual? {
          var _ := r.ResolveVirtualRoute(r.cfg[b], key, now);
        }
      case PullRemote =>
        var _ := p.Pull();
    }
  }

  // ---------------------------------------------------------------------------------------
  // Pulling twice
  // ---------------------------------------------------------------------------------------

  /** With distinct remote keys, a second pull fetches again exactly the keys that failed, lack a
      remote timestamp, or belong to a better-ranked bucket. */
  method PullTwice(p: Puller) returns (first: Result<PullResult, ()>, second: Result<PullResult, ()>, ghost mid: State)
    requires p.localCatalog.Valid() && DistinctKeys(p.remote.entries)
    modifies p.remote, p.localStore, p.localCatalog
    ensures p.localCatalog.Valid()
    ensures first.Ok? && second.Ok? ==> forall e <- p.remote.entries ::
              (e.key in second.value.pulled || e.key in second.value.failed <==>
                e.key in first.value.failed || e.lastModified == "" ||
                Outranked(p.localCatalog.ranking, Lookup(mid, e.key), p.targetBucket))
  {
    ghost var s := p.localCatalog.Value();
    first := p.Pull();
    mid := p.localCatalog.Value();
    second := p.Pull();
    if first.Ok? && second.Ok? {
      forall e | e in p.remote.entries
        ensures e.key in second.value.pulled || e.key in second.value.failed <==>
                  e.key in first.value.failed || e.lastModified == "" ||
                  Outranked(p.localCatalog.ranking, Lookup(mid, e.key), p.targetBucket)
      {
        RefetchIff(p.Setting(), e, s, mid, first.value);
      }
    }
  }
}
