/** What the catalog is a cache of: the first configured storage bucket that holds a key. */
module View {
  import opened Outcomes
  import opened Sequences
  import opened CatalogState
  import opened Config
  import opened Storage

  /** A HEAD request against the bucket would find the key. */
  predicate Has(b: Bucket, st: Objects, key: string) {
    b.HasStorage() && (b.name, key) in st
  }

  /** The bucket holds the key as a file, not as its own manifest. */
  predicate Keeps(b: Bucket, st: Objects, key: string) {
    Has(b, st, key) && key != b.manifestKey
  }

  function FirstKeeper(bs: seq<Bucket>, st: Objects, key: string): (i: nat)
    ensures i <= |bs|
    ensures i < |bs| ==> Keeps(bs[i], st, key)
    ensures forall j | 0 <= j < i :: !Keeps(bs[j], st, key)
  {
    First(bs, (b: Bucket) => Keeps(b, st, key))
  }

  function FirstHolder(bs: seq<Bucket>, st: Objects, key: string): (i: nat)
    ensures i <= |bs|
    ensures i < |bs| ==> Has(bs[i], st, key)
    ensures forall j | 0 <= j < i :: !Has(bs[j], st, key)
  {
    First(bs, (b: Bucket) => Has(b, st, key))
  }

  /** The entry for a key as the bucket's object stands now. */
  function FreshEntry(bs: seq<Bucket>, st: Objects, key: string, bucket: string): Entry
    requires (bucket, key) in st
  {
    var m := MetaOf(st, bucket, key);
    MakeEntry(RankingOf(bs), key, bucket, m.size, m.lastModified)
  }

  /** The ideal catalog: each key owned by the first bucket that keeps it, with fresh metadata. */
  function Ideal(bs: seq<Bucket>, st: Objects, key: string): Option<Entry> {
    var i := FirstKeeper(bs, st, key);
    if i < |bs| then Some(FreshEntry(bs, st, key, bs[i].name)) else None
  }

  /** The same by HEAD requests, which do not tell manifests from files. */
  function Found(bs: seq<Bucket>, st: Objects, key: string): Option<Entry> {
    var i := FirstHolder(bs, st, key);
    if i < |bs| then Some(FreshEntry(bs, st, key, bs[i].name)) else None
  }

  /** Bucket i is the first that is not virtual and holds the key, as a file if manifests do not count. */
  ghost predicate FirstWith(bs: seq<Bucket>, st: Objects, key: string, filesOnly: bool, i: nat) {
    && i < |bs| && bs[i].kind != Virtual && (bs[i].name, key) in st && (filesOnly ==> bs[i].manifestKey != key)
    && forall j | 0 <= j < i ::
         bs[j].kind == Virtual || (bs[j].name, key) !in st || (filesOnly && bs[j].manifestKey == key)
  }

  /** The view entry by entry: the first bucket's name and class, the route, and its object's own
      length and timestamp. */
  lemma IdealIff(bs: seq<Bucket>, st: Objects, key: string, e: Entry)
    ensures Ideal(bs, st, key) == Some(e) <==> exists i: nat ::
              && FirstWith(bs, st, key, true, i)
              && e == Entry(key, bs[i].name, BucketType(bs, bs[i].name), "/" + bs[i].name + "/" + key,
                   st[(bs[i].name, key)].body.length, st[(bs[i].name, key)].lastModified)
  {
    var i := FirstKeeper(bs, st, key);
    assert i < |bs| ==> FirstWith(bs, st, key, true, i);
    assert forall j: nat | FirstWith(bs, st, key, true, j) :: Keeps(bs[j], st, key) && j == i;
  }

  lemma FoundIff(bs: seq<Bucket>, st: Objects, key: string, e: Entry)
    ensures Found(bs, st, key) == Some(e) <==> exists i: nat ::
              && FirstWith(bs, st, key, false, i)
              && e == Entry(key, bs[i].name, BucketType(bs, bs[i].name), "/" + bs[i].name + "/" + key,
                   st[(bs[i].name, key)].body.length, st[(bs[i].name, key)].lastModified)
  {
    var i := FirstHolder(bs, st, key);
    assert i < |bs| ==> FirstWith(bs, st, key, false, i);
    assert forall j: nat | FirstWith(bs, st, key, false, j) :: Has(bs[j], st, key) && j == i;
  }

  predicate IsManifestKey(bs: seq<Bucket>, key: string) {
    exists b <- bs :: b.HasStorage() && b.manifestKey == key
  }

  /** HEAD requests and listings agree on every key that is no bucket's manifest. */
  lemma FoundIsIdeal(bs: seq<Bucket>, st: Objects, key: string)
    requires !IsManifestKey(bs, key)
    ensures Found(bs, st, key) == Ideal(bs, st, key)
  {
  }

  predicate IsManifestSlot(bs: seq<Bucket>, slot: (string, string)) {
    exists b <- bs :: b.HasStorage() && (b.name, b.manifestKey) == slot
  }

  predicate SameAt(a: Objects, b: Objects, slot: (string, string)) {
    if slot in a then slot in b && a[slot] == b[slot] else slot !in b
  }

  /** Two storages differ at most in the buckets' manifests. */
  ghost predicate SameFiles(bs: seq<Bucket>, a: Objects, b: Objects) {
    forall p: (string, string) | !IsManifestSlot(bs, p) :: SameAt(a, b, p)
  }

  lemma SameKeepers(bs: seq<Bucket>, a: Objects, b: Objects, key: string, i: nat)
    requires SameFiles(bs, a, b) && DistinctNames(bs) && i < |bs|
    ensures Keeps(bs[i], a, key) <==> Keeps(bs[i], b, key)
    ensures Keeps(bs[i], a, key) ==> a[(bs[i].name, key)] == b[(bs[i].name, key)]
  {
    if IsManifestSlot(bs, (bs[i].name, key)) {
      var c :| c in bs && c.HasStorage() && (c.name, c.manifestKey) == (bs[i].name, key);
      var j :| 0 <= j < |bs| && bs[j] == c;
      assert i == j;
    }
  }

  /** Rewriting manifests cannot change the ideal view. */
  lemma SameIdeal(bs: seq<Bucket>, a: Objects, b: Objects, key: string)
    requires SameFiles(bs, a, b) && DistinctNames(bs)
    ensures Ideal(bs, a, key) == Ideal(bs, b, key) && FirstKeeper(bs, a, key) == FirstKeeper(bs, b, key)
  {
    forall i: nat | i < |bs|
      ensures Keeps(bs[i], a, key) <==> Keeps(bs[i], b, key)
      ensures Keeps(bs[i], a, key) ==> a[(bs[i].name, key)] == b[(bs[i].name, key)]
    {
      SameKeepers(bs, a, b, key, i);
    }
  }

  // ---------------------------------------------------------------------------------------
  // Synchronisation
  // ---------------------------------------------------------------------------------------

  /** Who owns a key after a complete sync: the ideal owner, unless a better-ranked bucket is on record. */
  function Synced(bs: seq<Bucket>, s: State, st: Objects, key: string): Option<Entry> {
    var ideal := Ideal(bs, st, key);
    if ideal.None? then Lookup(s, key) else Admit(RankingOf(bs), Lookup(s, key), ideal.value)
  }

  ghost predicate IsSynced(bs: seq<Bucket>, s: State, st: Objects, t: State) {
    forall k: string :: Lookup(t, k) == Synced(bs, s, st, k)
  }

  /** A sync that got through the first n buckets: the keys they keep are as after a complete one. */
  ghost predicate SyncedTo(bs: seq<Bucket>, s: State, st: Objects, n: nat, t: State) {
    forall k: string :: Lookup(t, k) == if FirstKeeper(bs, st, k) < n then Synced(bs, s, st, k) else Lookup(s, k)
  }

  /** A sync that may have ended early. */
  ghost predicate SyncedPartly(bs: seq<Bucket>, s: State, st: Objects, t: State) {
    exists n: nat :: n <= |bs| && SyncedTo(bs, s, st, n, t)
  }

  lemma SyncedToEnd(bs: seq<Bucket>, s: State, st: Objects, t: State)
    requires SyncedTo(bs, s, st, |bs|, t)
    ensures IsSynced(bs, s, st, t)
  {
    forall k: string ensures Lookup(t, k) == Synced(bs, s, st, k) {
      assert Lookup(t, k) == if FirstKeeper(bs, st, k) < |bs| then Synced(bs, s, st, k) else Lookup(s, k);
    }
  }

  /** Bucket n's turn in a sync: the keys it is the first to keep are synced, the others are left. */
  ghost predicate Settles(bs: seq<Bucket>, st: Objects, n: nat, s: State, t: State) {
    forall k: string :: Lookup(t, k) == if FirstKeeper(bs, st, k) == n then Synced(bs, s, st, k) else Lookup(s, k)
  }

  ghost predicate IsIdeal(bs: seq<Bucket>, st: Objects, s: State) {
    forall k: string :: Lookup(s, k) == Ideal(bs, st, k)
  }

  /** Every entry's bucket is a configured storage bucket that keeps its key. */
  ghost predicate Sound(bs: seq<Bucket>, st: Objects, s: State) {
    forall k <- s.byKey :: exists i | 0 <= i < |bs| :: bs[i].name == s.byKey[k].bucket && Keeps(bs[i], st, k)
  }

  /** A record that sync can neither correct nor remove: a key no bucket keeps any more, or one
      whose recorded owner outranks every bucket that does. */
  predicate Stuck(bs: seq<Bucket>, st: Objects, s: State, k: string) {
    && k in s.byKey
    && var i := FirstKeeper(bs, st, k); i == |bs| || BucketPriority(bs, s.byKey[k].bucket) < i
  }

  /** A sync ends at the ideal view exactly when no record is stuck. */
  lemma SyncReachesIdealIff(bs: seq<Bucket>, s: State, st: Objects, t: State)
    requires DistinctNames(bs) && IsSynced(bs, s, st, t)
    ensures IsIdeal(bs, st, t) <==> forall k <- s.byKey :: !Stuck(bs, st, s, k)
  {
    forall k: string
      ensures Lookup(t, k) == Ideal(bs, st, k) <==> !Stuck(bs, st, s, k)
    {
      assert Lookup(t, k) == Synced(bs, s, st, k);
      var i := FirstKeeper(bs, st, k);
      if i < |bs| {
        RankIsPosition(bs, i);
      }
    }
    if IsIdeal(bs, st, t) {
      forall k | k in s.byKey ensures !Stuck(bs, st, s, k) {
        assert Lookup(t, k) == Ideal(bs, st, k);
      }
    }
  }

  /** A record of a file that is gone from storage survives a complete sync. */
  lemma StaleRecordSurvivesSync(t: State)
    requires var b := Bucket("a", "m", true, Hosted, "", 0, []);
             var e := MakeEntry(RankingOf([b]), "k", "a", 0, "");
             IsSynced([b], State(map["k" := e], map[e.route := "k"]), map[], t)
    ensures "k" in t.byKey && Ideal([Bucket("a", "m", true, Hosted, "", 0, [])], map[], "k").None?
  {
    var b := Bucket("a", "m", true, Hosted, "", 0, []);
    var e := MakeEntry(RankingOf([b]), "k", "a", 0, "");
    var s := State(map["k" := e], map[e.route := "k"]);
    assert Ideal([b], map[], "k").None?;
    assert Lookup(t, "k") == Synced([b], s, map[], "k") == Some(e);
  }

  /** A sound owner never outranks the first keeper. */
  lemma SoundKeySyncs(bs: seq<Bucket>, s: State, st: Objects, k: string)
    requires DistinctNames(bs) && Sound(bs, st, s)
    ensures Synced(bs, s, st, k) == Ideal(bs, st, k)
  {
    if k in s.byKey {
      var i :| 0 <= i < |bs| && bs[i].name == s.byKey[k].bucket && Keeps(bs[i], st, k);
      RankIsPosition(bs, i);
      RankIsPosition(bs, FirstKeeper(bs, st, k));
    }
  }

  /** From a sound catalog, a complete sync ends exactly at the ideal view. */
  lemma SyncFromSound(bs: seq<Bucket>, s: State, st: Objects, t: State)
    requires DistinctNames(bs) && Sound(bs, st, s) && IsSynced(bs, s, st, t)
    ensures IsIdeal(bs, st, t)
  {
    forall k: string ensures Lookup(t, k) == Ideal(bs, st, k) {
      SoundKeySyncs(bs, s, st, k);
    }
  }

  /** Every key is as it was or as the ideal view has it. */
  ghost predicate KeptOrIdeal(bs: seq<Bucket>, s: State, st: Objects, t: State) {
    forall k: string :: Lookup(t, k) == Lookup(s, k) || Lookup(t, k) == Ideal(bs, st, k)
  }

  lemma KeptOrIdealIsSound(bs: seq<Bucket>, s: State, st: Objects, t: State)
    requires Sound(bs, st, s) && KeptOrIdeal(bs, s, st, t)
    ensures Sound(bs, st, t)
  {
    forall k | k in t.byKey ensures exists i | 0 <= i < |bs| :: bs[i].name == t.byKey[k].bucket && Keeps(bs[i], st, k) {
      if Lookup(t, k) == Ideal(bs, st, k) {
        assert Keeps(bs[FirstKeeper(bs, st, k)], st, k);
      } else {
        assert Lookup(t, k) == Lookup(s, k);
      }
    }
  }

  /** Wherever a sync ends, a sound catalog stays sound and an ideal one ideal. */
  lemma PartialSyncKeepsSound(bs: seq<Bucket>, s: State, st: Objects, t: State)
    requires DistinctNames(bs) && Sound(bs, st, s) && SyncedPartly(bs, s, st, t)
    ensures Sound(bs, st, t)
    ensures IsIdeal(bs, st, s) ==> IsIdeal(bs, st, t)
  {
    var n: nat :| n <= |bs| && SyncedTo(bs, s, st, n, t);
    forall k: string ensures Lookup(t, k) == Lookup(s, k) || Lookup(t, k) == Ideal(bs, st, k) {
      SoundKeySyncs(bs, s, st, k);
      assert Lookup(t, k) == if FirstKeeper(bs, st, k) < n then Synced(bs, s, st, k) else Lookup(s, k);
    }
    KeptOrIdealIsSound(bs, s, st, t);
    if IsIdeal(bs, st, s) {
      forall k: string ensures Lookup(t, k) == Ideal(bs, st, k) {
        assert Lookup(s, k) == Ideal(bs, st, k);
      }
    }
  }

  lemma SoundUpToManifests(bs: seq<Bucket>, a: Objects, b: Objects, s: State)
    requires DistinctNames(bs) && SameFiles(bs, a, b) && Sound(bs, a, s)
    ensures Sound(bs, b, s)
  {
    forall k | k in s.byKey ensures exists i | 0 <= i < |bs| :: bs[i].name == s.byKey[k].bucket && Keeps(bs[i], b, k) {
      var i :| 0 <= i < |bs| && bs[i].name == s.byKey[k].bucket && Keeps(bs[i], a, k);
      SameKeepers(bs, a, b, k, i);
      assert Keeps(bs[i], b, k);
    }
  }

  /** A second sync over the same files changes no entry, whatever the first one started from, and
      no route if both end with inverse maps. */
  lemma SyncIsIdempotent(bs: seq<Bucket>, s: State, a: Objects, t: State, b: Objects, u: State)
    requires DistinctNames(bs) && SameFiles(bs, a, b)
    requires IsSynced(bs, s, a, t) && IsSynced(bs, t, b, u)
    ensures u.byKey == t.byKey
    ensures Consistent(t) && Consistent(u) ==> u == t
  {
    forall k: string ensures Lookup(u, k) == Lookup(t, k) {
      SameIdeal(bs, a, b, k);
      assert Lookup(t, k) == Synced(bs, s, a, k);
    }
    SameLookups(u, t);
    if Consistent(t) && Consistent(u) { EntriesDetermineRoutes(u, t); }
  }

  // ---------------------------------------------------------------------------------------
  // Duplicates
  // ---------------------------------------------------------------------------------------

  ghost predicate KeptTwice(bs: seq<Bucket>, st: Objects, key: string, n: nat)
    requires n <= |bs|
  {
    exists i, j | 0 <= i < j < n :: Keeps(bs[i], st, key) && Keeps(bs[j], st, key)
  }

  /** The keys that at least two storage buckets keep. */
  ghost function Duplicates(bs: seq<Bucket>, st: Objects): set<string> {
    set p | p in st && KeptTwice(bs, st, p.1, |bs|) :: p.1
  }

  lemma SameDuplicates(bs: seq<Bucket>, a: Objects, b: Objects)
    requires SameFiles(bs, a, b) && DistinctNames(bs)
    ensures Duplicates(bs, a) == Duplicates(bs, b)
  {
    DuplicatesWithin(bs, a, b);
    DuplicatesWithin(bs, b, a);
  }

  lemma DuplicatesWithin(bs: seq<Bucket>, a: Objects, b: Objects)
    requires SameFiles(bs, a, b) && DistinctNames(bs)
    ensures Duplicates(bs, a) <= Duplicates(bs, b)
  {
    forall k | k in Duplicates(bs, a) ensures k in Duplicates(bs, b) {
      var i, j :| 0 <= i < j < |bs| && Keeps(bs[i], a, k) && Keeps(bs[j], a, k);
      SameKeepers(bs, a, b, k, i);
      SameKeepers(bs, a, b, k, j);
      assert (bs[i].name, k) in b && KeptTwice(bs, b, k, |bs|);
    }
  }
}
