/** Pulling a remote instance's files into one local bucket. */
module Replication {
  import opened Outcomes
  import opened Strings
  import opened CatalogState
  import opened Catalogs
  import opened Storage

  /** A remote instance: the entries it lists and the bytes it serves for each. */
  class Remote {
    const entries: seq<Entry>
    const bodies: Entry -> Body
    ghost var failures: nat

    constructor (entries: seq<Entry>, bodies: Entry -> Body)
      ensures this.entries == entries && this.bodies == bodies
    {
      this.entries, this.bodies := entries, bodies;
    }

    method FetchManifest() returns (r: Result<seq<Entry>, ()>)
      modifies this`failures
      ensures failures == old(failures) + if r.Ok? then 0 else 1
      ensures r.Ok? ==> r.value == entries
    {
      var up: bool := *;
      if !up {
        failures := failures + 1;
        return Err(());
      }
      return Ok(entries);
    }

    method FetchObject(e: Entry) returns (r: Result<Body, ()>)
      modifies this`failures
      ensures failures == old(failures) + if r.Ok? then 0 else 1
      ensures r.Ok? ==> r.value == bodies(e)
    {
      var up: bool := *;
      if !up {
        failures := failures + 1;
        return Err(());
      }
      return Ok(bodies(e));
    }
  }

  datatype PullError = FetchFailed(key: string) | StoreFailed(key: string)

  datatype PullResult = PullResult(pulled: seq<string>, skipped: seq<string>, failed: seq<string>,
      errors: seq<PullError>)

  function Keys(entries: seq<Entry>): seq<string> {
    seq(|entries|, i requires 0 <= i < |entries| => entries[i].key)
  }

  /** What a pull does not change: the local ranking, the target bucket and the bytes the remote serves. */
  datatype Pulling = Pulling(ranking: Ranking, target: string, bodies: Entry -> Body)

  /** Already pulled into the target bucket, at a timestamp no older than a known remote one. */
  predicate UpToDate(s: State, target: string, e: Entry) {
    var local := Lookup(s, e.key);
    e.lastModified != "" && local.Some? && local.value.bucket == target &&
        !Less(local.value.lastModified, e.lastModified)
  }

  /** By position: the local timestamp is the remote one, extends it, or has the larger character
      where the two first differ. */
  lemma UpToDateIff(s: State, target: string, e: Entry)
    ensures UpToDate(s, target, e) <==>
            && e.lastModified != "" && e.key in s.byKey && s.byKey[e.key].bucket == target
            && var local, remote := s.byKey[e.key].lastModified, e.lastModified;
               || local == remote || remote < local
               || exists i | 0 <= i < |remote| && i < |local| :: remote[..i] == local[..i] && remote[i] < local[i]
  {
    if e.key in s.byKey {
      LessIsTotalOrder(s.byKey[e.key].lastModified, e.lastModified, e.lastModified);
      LessIff(e.lastModified, s.byKey[e.key].lastModified);
    }
  }

  // ---------------------------------------------------------------------------------------
  // Runs
  // ---------------------------------------------------------------------------------------

  const NOTHING := PullResult([], [], [], [])

  function Skip(e: Entry, r: PullResult): PullResult {
    r.(skipped := r.skipped + [e.key])
  }

  function Fail(e: Entry, error: PullError, r: PullResult): PullResult {
    r.(failed := r.failed + [e.key], errors := r.errors + [error])
  }

  /** What one remote entry adds to the result and does to the catalog. */
  ghost predicate PullOutcome(p: Pulling, e: Entry, s: State, r: PullResult, s': State, r': PullResult) {
    if UpToDate(s, p.target, e) then s' == s && r' == Skip(e, r)
    else
      || (s' == s && (r' == Fail(e, FetchFailed(e.key), r) || r' == Fail(e, StoreFailed(e.key), r)))
      || (s' == Apply(p.ranking, s, Step.Register(e.key, p.target, p.bodies(e).length, e.lastModified))
          && r' == r.(pulled := r.pulled + [e.key]))
  }

  /** A pull of these entries, with whatever fetches and stores failing, can lead from s to t with this result. */
  ghost predicate PullRun(p: Pulling, es: seq<Entry>, s: State, t: State, r: PullResult) {
    if es == [] then t == s && r == NOTHING
    else
      var n := |es| - 1;
      exists t0: State, r0: PullResult :: PullRun(p, es[..n], s, t0, r0) && PullOutcome(p, es[n], t0, r0, t, r)
  }

  lemma {:induction false} PullRunStep(p: Pulling, es: seq<Entry>, i: nat, s: State, t: State, r: PullResult,
      t': State, r': PullResult)
    requires i < |es| && PullRun(p, es[..i], s, t, r) && PullOutcome(p, es[i], t, r, t', r')
    ensures PullRun(p, es[..i + 1], s, t', r')
  {
    assert es[..i + 1][..i] == es[..i];
  }

  // ---------------------------------------------------------------------------------------
  // The account of a run
  // ---------------------------------------------------------------------------------------

  /** What a pull of these entries does to each of their keys. */
  ghost predicate PullEffect(p: Pulling, e: Entry, s: State, t: State, r: PullResult) {
    && (e.key in r.skipped <==> UpToDate(s, p.target, e))
    && (e.key in r.pulled || e.key in r.failed <==> !UpToDate(s, p.target, e))
    && !(e.key in r.pulled && e.key in r.failed)
    && Lookup(t, e.key) ==
       if e.key in r.pulled
       then Admit(p.ranking, Lookup(s, e.key),
                  MakeEntry(p.ranking, e.key, p.target, p.bodies(e).length, e.lastModified))
       else Lookup(s, e.key)
  }

  /** After one pull, a key would be fetched again exactly when its pull failed, its remote
      timestamp is missing, or a better-ranked bucket owns it. */
  lemma RefetchIff(p: Pulling, e: Entry, s: State, t: State, r: PullResult)
    requires PullEffect(p, e, s, t, r)
    ensures !UpToDate(t, p.target, e) <==>
            e.key in r.failed || e.lastModified == "" || Outranked(p.ranking, Lookup(t, e.key), p.target)
  {
    LessIsTotalOrder(e.lastModified, e.lastModified, e.lastModified);
  }

  /** The result mentions exactly the entries handled, each once, with its error if it failed. */
  ghost predicate Accounts(entries: seq<Entry>, r: PullResult) {
    && multiset(r.pulled) + multiset(r.skipped) + multiset(r.failed) == multiset(Keys(entries))
    && ErrorsMatch(r) && Mentions(entries, r)
  }

  predicate Mentioned(r: PullResult, k: string) {
    k in r.pulled || k in r.skipped || k in r.failed
  }

  ghost predicate Mentions(entries: seq<Entry>, r: PullResult) {
    forall k: string :: Mentioned(r, k) <==> k in Keys(entries)
  }

  /** The catalog shows each handled entry's effect and is otherwise as it was. */
  ghost predicate Effects(p: Pulling, entries: seq<Entry>, s: State, t: State, r: PullResult) {
    && (DistinctKeys(entries) ==> forall e <- entries :: PullEffect(p, e, s, t, r))
    && (forall k: string | k !in Keys(entries) :: Lookup(t, k) == Lookup(s, k))
  }

  lemma KeysOfMore(entries: seq<Entry>, i: nat)
    requires i < |entries|
    ensures Keys(entries[..i + 1]) == Keys(entries[..i]) + [entries[i].key]
    ensures DistinctKeys(entries[..i + 1]) ==> entries[i].key !in Keys(entries[..i])
  {
  }

  lemma {:induction false} RunAccounts(p: Pulling, es: seq<Entry>, s: State, t: State, r: PullResult)
    requires PullRun(p, es, s, t, r)
    ensures Accounts(es, r)
  {
    if es == [] {
    } else {
      var n := |es| - 1;
      var t0: State, r0: PullResult :| PullRun(p, es[..n], s, t0, r0) && PullOutcome(p, es[n], t0, r0, t, r);
      RunAccounts(p, es[..n], s, t0, r0);
      assert es[..n + 1] == es;
      KeysOfMore(es, n);
      CountsStep(p, es[n], t0, r0, t, r);
      ErrorsStep(p, es[n], t0, r0, t, r);
      MentionsStep(p, es, n, t0, r0, t, r);
    }
  }

  lemma CountsStep(p: Pulling, e: Entry, t: State, r: PullResult, t': State, r': PullResult)
    requires PullOutcome(p, e, t, r, t', r')
    ensures multiset(r'.pulled) + multiset(r'.skipped) + multiset(r'.failed) ==
            multiset(r.pulled) + multiset(r.skipped) + multiset(r.failed) + multiset{e.key}
  {
  }

  predicate ErrorsMatch(r: PullResult) {
    |r.errors| == |r.failed| && forall j | 0 <= j < |r.failed| :: r.errors[j].key == r.failed[j]
  }

  lemma ErrorsStep(p: Pulling, e: Entry, t: State, r: PullResult, t': State, r': PullResult)
    requires PullOutcome(p, e, t, r, t', r') && ErrorsMatch(r)
    ensures ErrorsMatch(r')
  {
  }

  lemma MentionsStep(p: Pulling, es: seq<Entry>, i: nat, t: State, r: PullResult, t': State, r': PullResult)
    requires i < |es| && Mentions(es[..i], r) && PullOutcome(p, es[i], t, r, t', r')
    ensures Mentions(es[..i + 1], r')
  {
    KeysOfMore(es, i);
  }

  /** Handling one entry leaves the effect of an entry with another key in place. */
  lemma EffectKept(p: Pulling, e: Entry, next: Entry, s: State, t: State, r: PullResult, t': State, r': PullResult)
    requires e.key != next.key && PullEffect(p, e, s, t, r) && PullOutcome(p, next, t, r, t', r')
    ensures PullEffect(p, e, s, t', r')
  {
  }

  lemma EffectAdded(p: Pulling, e: Entry, s: State, t: State, r: PullResult, t': State, r': PullResult)
    requires !Mentioned(r, e.key) && Lookup(t, e.key) == Lookup(s, e.key)
    requires PullOutcome(p, e, t, r, t', r')
    ensures PullEffect(p, e, s, t', r')
  {
  }

  lemma EffectOfEach(p: Pulling, es: seq<Entry>, i: nat, j: nat, s: State, t: State, r: PullResult, t': State,
      r': PullResult)
    requires j <= i < |es| && DistinctKeys(es[..i + 1]) && Mentions(es[..i], r)
    requires Effects(p, es[..i], s, t, r) && PullOutcome(p, es[i], t, r, t', r')
    ensures PullEffect(p, es[j], s, t', r')
  {
    if j == i {
      KeysOfMore(es, i);
      EffectAdded(p, es[i], s, t, r, t', r');
    } else {
      assert es[j] in es[..i] && es[..i + 1][j].key != es[..i + 1][i].key;
      EffectKept(p, es[j], es[i], s, t, r, t', r');
    }
  }

  lemma EffectsStep(p: Pulling, es: seq<Entry>, i: nat, s: State, t: State, r: PullResult, t': State, r': PullResult)
    requires i < |es| && Mentions(es[..i], r)
    requires Effects(p, es[..i], s, t, r) && PullOutcome(p, es[i], t, r, t', r')
    ensures Effects(p, es[..i + 1], s, t', r')
  {
    if DistinctKeys(es[..i + 1]) {
      forall j: nat | j <= i ensures PullEffect(p, es[j], s, t', r') {
        EffectOfEach(p, es, i, j, s, t, r, t', r');
      }
    }
    KeysOfMore(es, i);
  }

  lemma {:induction false} RunEffects(p: Pulling, es: seq<Entry>, s: State, t: State, r: PullResult)
    requires PullRun(p, es, s, t, r)
    ensures Effects(p, es, s, t, r)
  {
    if es == [] {
    } else {
      var n := |es| - 1;
      var t0: State, r0: PullResult :| PullRun(p, es[..n], s, t0, r0) && PullOutcome(p, es[n], t0, r0, t, r);
      RunAccounts(p, es[..n], s, t0, r0);
      RunEffects(p, es[..n], s, t0, r0);
      assert es[..n + 1] == es;
      EffectsStep(p, es, n, s, t0, r0, t, r);
    }
  }

  // ---------------------------------------------------------------------------------------
  // One list per key
  // ---------------------------------------------------------------------------------------

  /** No key is in two of the lists. */
  ghost predicate Exclusive(r: PullResult) {
    forall k: string :: !(k in r.pulled && k in r.skipped) && !(k in r.pulled && k in r.failed) &&
      !(k in r.skipped && k in r.failed)
  }

  /** Entries that share their key are up to date before the pull starts. */
  ghost predicate RepeatsUpToDate(s: State, target: string, es: seq<Entry>) {
    forall i, j | 0 <= i < |es| && 0 <= j < |es| && i != j && es[i].key == es[j].key :: UpToDate(s, target, es[i])
  }

  ghost predicate Occurs(s: State, target: string, es: seq<Entry>, k: string, upToDate: bool) {
    exists e <- es :: e.key == k && (UpToDate(s, target, e) <==> upToDate)
  }

  /** Where a run stands while every repeated key is up to date. */
  ghost predicate Separated(p: Pulling, es: seq<Entry>, s: State, t: State, r: PullResult) {
    && Exclusive(r)
    && (forall k: string | k !in r.pulled :: Lookup(t, k) == Lookup(s, k))
    && (forall k: string | k in r.pulled || k in r.failed :: Occurs(s, p.target, es, k, false))
    && (forall k: string | k in r.skipped :: Occurs(s, p.target, es, k, true))
  }

  lemma OccursInMore(s: State, target: string, es: seq<Entry>, k: string, upToDate: bool)
    requires es != [] && Occurs(s, target, es[..|es| - 1], k, upToDate)
    ensures Occurs(s, target, es, k, upToDate)
  {
    var e :| e in es[..|es| - 1] && e.key == k && (UpToDate(s, target, e) <==> upToDate);
    assert e in es;
  }

  lemma NoStaleRepeat(s: State, target: string, es: seq<Entry>)
    requires es != [] && RepeatsUpToDate(s, target, es)
    ensures !Occurs(s, target, es[..|es| - 1], es[|es| - 1].key, false)
  {
  }

  /** A key met again has only been skipped so far, and is up to date still. */
  lemma MetAgain(p: Pulling, es: seq<Entry>, s: State, t: State, r: PullResult)
    requires es != [] && RepeatsUpToDate(s, p.target, es)
    requires Separated(p, es[..|es| - 1], s, t, r) && Mentioned(r, es[|es| - 1].key)
    ensures var e := es[|es| - 1]; e.key !in r.pulled && e.key !in r.failed && UpToDate(t, p.target, e)
  {
    var n := |es| - 1;
    var e := es[n];
    NoStaleRepeat(s, p.target, es);
    assert Occurs(s, p.target, es[..n], e.key, true);
    var i :| 0 <= i < n && es[i].key == e.key;
    assert UpToDate(s, p.target, es[n]);
  }

  lemma SeparatedStep(p: Pulling, es: seq<Entry>, s: State, t: State, r: PullResult, t': State, r': PullResult)
    requires es != [] && RepeatsUpToDate(s, p.target, es)
    requires Separated(p, es[..|es| - 1], s, t, r) && PullOutcome(p, es[|es| - 1], t, r, t', r')
    ensures Separated(p, es, s, t', r')
  {
    var e := es[|es| - 1];
    if Mentioned(r, e.key) { MetAgain(p, es, s, t, r); }
    forall k: string, b: bool | Occurs(s, p.target, es[..|es| - 1], k, b) ensures Occurs(s, p.target, es, k, b) {
      OccursInMore(s, p.target, es, k, b);
    }
    assert e in es && Occurs(s, p.target, es, e.key, UpToDate(s, p.target, e));
  }

  lemma {:induction false} RepeatsStaySeparated(p: Pulling, es: seq<Entry>, s: State, t: State, r: PullResult)
    requires RepeatsUpToDate(s, p.target, es) && PullRun(p, es, s, t, r)
    ensures Separated(p, es, s, t, r)
  {
    if es == [] {
    } else {
      var n := |es| - 1;
      var t0: State, r0: PullResult :| PullRun(p, es[..n], s, t0, r0) && PullOutcome(p, es[n], t0, r0, t, r);
      assert RepeatsUpToDate(s, p.target, es[..n]);
      RepeatsStaySeparated(p, es[..n], s, t0, r0);
      SeparatedStep(p, es, s, t0, r0, t, r);
    }
  }

  /** The run in which every fetch fails. */
  function AllFail(s: State, target: string, es: seq<Entry>): PullResult {
    if es == [] then NOTHING
    else
      var e, r := es[|es| - 1], AllFail(s, target, es[..|es| - 1]);
      if UpToDate(s, target, e) then Skip(e, r) else Fail(e, FetchFailed(e.key), r)
  }

  lemma {:induction false} AllFailIsRun(p: Pulling, es: seq<Entry>, s: State, i: nat)
    ensures var r := AllFail(s, p.target, es);
            && PullRun(p, es, s, s, r)
            && (i < |es| ==> if UpToDate(s, p.target, es[i]) then es[i].key in r.skipped else es[i].key in r.failed)
  {
    if es == [] {
    } else {
      var n := |es| - 1;
      AllFailIsRun(p, es[..n], s, i);
      assert PullOutcome(p, es[n], s, AllFail(s, p.target, es[..n]), s, AllFail(s, p.target, es));
    }
  }

  ghost predicate Extends(r: PullResult, r': PullResult) {
    r.pulled <= r'.pulled && r.skipped <= r'.skipped && r.failed <= r'.failed
  }

  /** Every run can go on. */
  lemma {:induction false} RunGoesOn(p: Pulling, es: seq<Entry>, i: nat, s: State, t: State, r: PullResult)
      returns (t': State, r': PullResult)
    requires i <= |es| && PullRun(p, es[..i], s, t, r)
    ensures PullRun(p, es, s, t', r') && Extends(r, r')
    decreases |es| - i
  {
    if i == |es| {
      assert es[..i] == es;
      t', r' := t, r;
    } else {
      var e := es[i];
      var next := if UpToDate(t, p.target, e) then Skip(e, r) else Fail(e, FetchFailed(e.key), r);
      PullRunStep(p, es, i, s, t, r, t, next);
      t', r' := RunGoesOn(p, es, i + 1, s, t, next);
    }
  }

  /** A repeated key with a stale occurrence can end up in two lists: let every fetch fail but that
      of the later occurrence. */
  lemma {:induction false} StaleRepeatSplits(p: Pulling, es: seq<Entry>, i: nat, j: nat, s: State)
      returns (t: State, r: PullResult)
    requires i < j < |es| && es[i].key == es[j].key
    requires !(UpToDate(s, p.target, es[i]) && UpToDate(s, p.target, es[j]))
    ensures PullRun(p, es, s, t, r) && !Exclusive(r)
  {
    var e, r0 := es[j], AllFail(s, p.target, es[..j]);
    AllFailIsRun(p, es[..j], s, i);
    assert es[..j][i] == es[i];
    var t1, r1 := s, Skip(e, r0);
    if !UpToDate(s, p.target, e) {
      t1 := Apply(p.ranking, s, Step.Register(e.key, p.target, p.bodies(e).length, e.lastModified));
      r1 := r0.(pulled := r0.pulled + [e.key]);
    }
    PullRunStep(p, es, j, s, s, r0, t1, r1);
    t, r := RunGoesOn(p, es, j + 1, s, t1, r1);
    assert !Exclusive(r1);
    InMore(r1, r, e.key);
  }

  lemma InMore(r: PullResult, r': PullResult, k: string)
    requires Extends(r, r')
    ensures k in r.pulled ==> k in r'.pulled
    ensures k in r.skipped ==> k in r'.skipped
    ensures k in r.failed ==> k in r'.failed
  {
  }

  /** Every pull puts each key in one list exactly when entries that share their key are already up to date. */
  lemma {:induction false} ExclusiveIff(p: Pulling, es: seq<Entry>, s: State)
    ensures (forall t: State, r: PullResult | PullRun(p, es, s, t, r) :: Exclusive(r)) <==>
            RepeatsUpToDate(s, p.target, es)
  {
    if RepeatsUpToDate(s, p.target, es) {
      forall t: State, r: PullResult | PullRun(p, es, s, t, r) ensures Exclusive(r) {
        RepeatsStaySeparated(p, es, s, t, r);
      }
    } else {
      var i: nat, j: nat :| i < |es| && j < |es| && i != j && es[i].key == es[j].key && !UpToDate(s, p.target, es[i]);
      var t, r := StaleRepeatSplits(p, es, if i < j then i else j, if i < j then j else i, s);
      assert PullRun(p, es, s, t, r) && !Exclusive(r);
    }
  }

  /** What a run of a pull amounts to. */
  lemma {:induction false} PullRunFacts(p: Pulling, es: seq<Entry>, s: State, t: State, r: PullResult)
    requires PullRun(p, es, s, t, r)
    ensures Accounts(es, r) && Effects(p, es, s, t, r)
    ensures RepeatsUpToDate(s, p.target, es) ==> Exclusive(r)
  {
    RunAccounts(p, es, s, t, r);
    RunEffects(p, es, s, t, r);
    if RepeatsUpToDate(s, p.target, es) { RepeatsStaySeparated(p, es, s, t, r); }
  }

  /** A manifest that lists "k" twice, pulled into an empty catalog: the first fetch fails, the second does not. */
  lemma RepeatedKeyFailsAndIsPulled(p: Pulling)
    ensures var e := Entry("k", "a", "private", "/a/k", 1, "");
            PullRun(p, [e, e], EMPTY,
                    Apply(p.ranking, EMPTY, Step.Register("k", p.target, p.bodies(e).length, "")),
                    PullResult(["k"], [], ["k"], [FetchFailed("k")]))
  {
    var e := Entry("k", "a", "private", "/a/k", 1, "");
    var r := PullResult([], [], ["k"], [FetchFailed("k")]);
    assert [e, e][..0] == [];
    PullRunStep(p, [e, e], 0, EMPTY, EMPTY, NOTHING, EMPTY, r);
    PullRunStep(p, [e, e], 1, EMPTY, EMPTY, r,
      Apply(p.ranking, EMPTY, Step.Register("k", p.target, p.bodies(e).length, "")), r.(pulled := ["k"]));
    assert [e, e][..2] == [e, e];
  }

  // ---------------------------------------------------------------------------------------
  // What a pull leaves
  // ---------------------------------------------------------------------------------------

  /** Exactly the entries are skipped whose local copy, in the target bucket, is at the remote's
      known timestamp or after it. */
  ghost predicate SkipsUpToDate(target: string, es: seq<Entry>, s: State, r: PullResult) {
    forall e <- es :: e.key in r.skipped <==>
      && e.lastModified != "" && e.key in s.byKey && s.byKey[e.key].bucket == target
      && var local, remote := s.byKey[e.key].lastModified, e.lastModified;
         || local == remote || remote < local
         || exists i | 0 <= i < |remote| && i < |local| :: remote[..i] == local[..i] && remote[i] < local[i]
  }

  /** The entry is owned by a better-ranked bucket, or by the target: as just pulled, or at a
      timestamp not before the remote's. */
  ghost predicate Replicated(p: Pulling, e: Entry, t: State, r: PullResult) {
    && e.key in t.byKey
    && var x := t.byKey[e.key];
       || p.ranking.priority(x.bucket) < p.ranking.priority(p.target)
       || (e.key in r.pulled && x == Entry(e.key, p.target, p.ranking.bucketType(p.target),
             "/" + p.target + "/" + e.key, p.bodies(e).length, e.lastModified))
       || (e.key in r.skipped && x.bucket == p.target &&
             (x.lastModified == e.lastModified || e.lastModified < x.lastModified ||
              exists i | 0 <= i < |e.lastModified| && i < |x.lastModified| ::
                e.lastModified[..i] == x.lastModified[..i] && e.lastModified[i] < x.lastModified[i]))
  }

  lemma PulledAreReplicated(p: Pulling, es: seq<Entry>, s: State, t: State, r: PullResult)
    requires DistinctKeys(es) && Effects(p, es, s, t, r)
    ensures SkipsUpToDate(p.target, es, s, r)
    ensures forall e <- es | e.key !in r.failed :: Replicated(p, e, t, r)
  {
    forall e | e in es
      ensures e.key in r.skipped <==>
        && e.lastModified != "" && e.key in s.byKey && s.byKey[e.key].bucket == p.target
        && var local, remote := s.byKey[e.key].lastModified, e.lastModified;
           || local == remote || remote < local
           || exists i | 0 <= i < |remote| && i < |local| :: remote[..i] == local[..i] && remote[i] < local[i]
    {
      assert PullEffect(p, e, s, t, r);
      UpToDateIff(s, p.target, e);
    }
    forall e | e in es && e.key !in r.failed ensures Replicated(p, e, t, r) {
      EffectReplicates(p, e, s, t, r);
    }
  }

  lemma EffectReplicates(p: Pulling, e: Entry, s: State, t: State, r: PullResult)
    requires PullEffect(p, e, s, t, r) && e.key !in r.failed
    ensures Replicated(p, e, t, r)
  {
    UpToDateIff(s, p.target, e);
  }

  // ---------------------------------------------------------------------------------------
  // Stored bytes
  // ---------------------------------------------------------------------------------------

  /** Every pulled entry's bytes are in the target bucket. */
  ghost predicate Stored(p: Pulling, entries: seq<Entry>, st: Objects, r: PullResult) {
    forall e <- entries | e.key in r.pulled :: (p.target, e.key) in st && st[(p.target, e.key)].body == p.bodies(e)
  }

  lemma StoredStep(p: Pulling, es: seq<Entry>, i: nat, a: Objects, r: PullResult, b: Objects, r': PullResult)
    requires i < |es| && DistinctKeys(es) && Stored(p, es[..i], a, r) && Mentions(es[..i], r)
    requires r'.pulled == r.pulled || r'.pulled == r.pulled + [es[i].key]
    requires r'.pulled != r.pulled ==>
               (p.target, es[i].key) in b && b[(p.target, es[i].key)].body == p.bodies(es[i])
    requires forall q: (string, string) | q != (p.target, es[i].key) && q in a :: q in b && b[q] == a[q]
    ensures Stored(p, es[..i + 1], b, r')
  {
    KeysOfMore(es, i);
    forall e | e in es[..i + 1] && e.key in r'.pulled
      ensures (p.target, e.key) in b && b[(p.target, e.key)].body == p.bodies(e)
    {
      if e != es[i] {
        assert e in es[..i];
      }
    }
  }

  /** Storage changed at most in the target bucket, at keys that were pulled. */
  ghost predicate OnlyPulled(target: string, r: PullResult, a: Objects, b: Objects) {
    forall q: (string, string) | q.0 != target || q.1 !in r.pulled ::
      (q in a <==> q in b) && (q in a ==> a[q] == b[q])
  }

  lemma OnlyPulledMore(target: string, r: PullResult, r': PullResult, a: Objects, b: Objects, c: Objects, key: string)
    requires OnlyPulled(target, r, a, b)
    requires (r'.pulled == r.pulled && c == b) ||
             (r'.pulled == r.pulled + [key] && (target, key) in c && c == b[(target, key) := c[(target, key)]])
    ensures OnlyPulled(target, r', a, c)
  {
  }

  class Puller {
    const remote: Remote
    const localStore: Store
    const localCatalog: Catalog
    const targetBucket: string

    constructor (remote: Remote, localStore: Store, localCatalog: Catalog, targetBucket: string)
      ensures this.remote == remote && this.localStore == localStore
      ensures this.localCatalog == localCatalog && this.targetBucket == targetBucket
    {
      this.remote, this.localStore := remote, localStore;
      this.localCatalog, this.targetBucket := localCatalog, targetBucket;
    }

    function Setting(): Pulling {
      Pulling(localCatalog.ranking, targetBucket, remote.bodies)
    }

    /** One failing key does not stop the others. */
    method Pull() returns (r: Result<PullResult, ()>)
      requires localCatalog.Valid()
      modifies remote, localStore, localCatalog
      ensures localCatalog.Valid()
      ensures remote.failures >= old(remote.failures) && localStore.failures >= old(localStore.failures)
      ensures remote.failures == old(remote.failures) && localStore.failures == old(localStore.failures) ==>
                r.Ok? && r.value.failed == []
      ensures OnlyRegisters(old(localCatalog.history), localCatalog.history, {targetBucket})
      ensures r.Err? ==>
                localCatalog.Value() == old(localCatalog.Value()) && localStore.objects == old(localStore.objects)
      ensures r.Ok? ==> PullRun(Setting(), remote.entries, old(localCatalog.Value()), localCatalog.Value(), r.value)
      ensures r.Ok? ==> Accounts(remote.entries, r.value)
      ensures r.Ok? ==> Effects(Setting(), remote.entries, old(localCatalog.Value()), localCatalog.Value(), r.value)
      ensures r.Ok? && RepeatsUpToDate(old(localCatalog.Value()), targetBucket, remote.entries) ==> Exclusive(r.value)
      ensures r.Ok? && DistinctKeys(remote.entries) ==>
                && SkipsUpToDate(targetBucket, remote.entries, old(localCatalog.Value()), r.value)
                && (forall e <- remote.entries | e.key !in r.value.failed ::
                      Replicated(Setting(), e, localCatalog.Value(), r.value))
                && Stored(Setting(), remote.entries, localStore.objects, r.value)
      ensures r.Ok? ==> OnlyPulled(targetBucket, r.value, old(localStore.objects), localStore.objects)
    {
      ghost var s := localCatalog.Value();
      var fetched := remote.FetchManifest();
      if fetched.Err? {
        return Err(());
      }
      var result := PullAll(fetched.value);
      PullRunFacts(Setting(), remote.entries, s, localCatalog.Value(), result);
      if DistinctKeys(remote.entries) {
        PulledAreReplicated(Setting(), remote.entries, s, localCatalog.Value(), result);
      }
      return Ok(result);
    }

    /** Pull's loop. */
    method PullAll(entries: seq<Entry>) returns (result: PullResult)
      requires localCatalog.Valid()
      modifies remote, localStore, localCatalog
      ensures localCatalog.Valid()
      ensures remote.failures >= old(remote.failures) && localStore.failures >= old(localStore.failures)
      ensures remote.failures == old(remote.failures) && localStore.failures == old(localStore.failures) ==>
                result.failed == []
      ensures OnlyRegisters(old(localCatalog.history), localCatalog.history, {targetBucket})
      ensures PullRun(Setting(), entries, old(localCatalog.Value()), localCatalog.Value(), result)
      ensures DistinctKeys(entries) ==> Stored(Setting(), entries, localStore.objects, result)
      ensures OnlyPulled(targetBucket, result, old(localStore.objects), localStore.objects)
    {
      ghost var s := localCatalog.Value();
      result := NOTHING;
      for i := 0 to |entries|
        invariant localCatalog.Valid()
        invariant remote.failures >= old(remote.failures) && localStore.failures >= old(localStore.failures)
        invariant remote.failures == old(remote.failures) && localStore.failures == old(localStore.failures) ==>
                    result.failed == []
        invariant OnlyRegisters(old(localCatalog.history), localCatalog.history, {targetBucket})
        invariant PullRun(Setting(), entries[..i], s, localCatalog.Value(), result)
        invariant DistinctKeys(entries) ==> Stored(Setting(), entries[..i], localStore.objects, result)
        invariant OnlyPulled(targetBucket, result, old(localStore.objects), localStore.objects)
      {
        ghost var t, before, st := localCatalog.Value(), result, localStore.objects;
        result := PullOne(entries[i], result);
        OnlyPulledMore(targetBucket, before, result, old(localStore.objects), st, localStore.objects, entries[i].key);
        RunAccounts(Setting(), entries[..i], s, t, before);
        PullRunStep(Setting(), entries, i, s, t, before, localCatalog.Value(), result);
        if DistinctKeys(entries) {
          StoredStep(Setting(), entries, i, st, before, localStore.objects, result);
        }
      }
      assert entries[..|entries|] == entries;
    }

    /** The body of Pull's loop. */
    method PullOne(e: Entry, result: PullResult) returns (r: PullResult)
      requires localCatalog.Valid()
      modifies remote, localStore, localCatalog
      ensures localCatalog.Valid()
      ensures remote.failures >= old(remote.failures) && localStore.failures >= old(localStore.failures)
      ensures remote.failures == old(remote.failures) && localStore.failures == old(localStore.failures) ==>
          r.failed == result.failed
      ensures OnlyRegisters(old(localCatalog.history), localCatalog.history, {targetBucket})
      ensures PullOutcome(Setting(), e, old(localCatalog.Value()), result, localCatalog.Value(), r)
      ensures if r.pulled == result.pulled then localStore.objects == old(localStore.objects)
              else
                && r.pulled == result.pulled + [e.key] && (targetBucket, e.key) in localStore.objects
                && localStore.objects[(targetBucket, e.key)].body == remote.bodies(e)
                && localStore.objects ==
                   old(localStore.objects)[(targetBucket, e.key) := localStore.objects[(targetBucket, e.key)]]
    {
      if UpToDate(localCatalog.Value(), targetBucket, e) {
        return Skip(e, result);
      }
      var body := remote.FetchObject(e);
      if body.Err? {
        return Fail(e, FetchFailed(e.key), result);
      }
      var put := localStore.PutObject(targetBucket, e.key, body.value);
      if !put {
        return Fail(e, StoreFailed(e.key), result);
      }
      localCatalog.Register(e.key, targetBucket, body.value.length, e.lastModified);
      return result.(pulled := result.pulled + [e.key]);
    }
  }
}
