/** Capturing a catalog as one document and restoring it elsewhere. */
module Snapshots {
  import opened Outcomes
  import opened Strings
  import opened GenericFormat
  import opened Sequences
  import opened Sorting
  import opened CatalogState
  import opened Catalogs
  import opened Routes

  datatype Manifest = Manifest(version: int, bucket: string, files: seq<Entry>)

  datatype Document = Document(version: int, capturedAt: int, buckets: seq<Manifest>)

  const DOCUMENT_VERSION := 1

  lemma LessIsWeak()
    ensures WeakOrder(Less)
  {
    forall a: string, b: string ensures Less(a, b) ==> !Less(b, a) {
      LessIsTotalOrder(a, b, a);
    }
    forall a: string, b: string, c: string ensures !Less(b, a) && !Less(c, b) ==> !Less(c, a) {
      LessIsTotalOrder(a, b, c);
      LessIsTotalOrder(c, a, b);
      LessIsTotalOrder(b, c, a);
    }
  }

  function Itself(): string -> string {
    name => name
  }

  /** The buckets that own some entry, each once, in order. */
  method DistinctBuckets(entries: seq<Entry>) returns (buckets: seq<string>)
    ensures forall i, j | 0 <= i < j < |buckets| :: Less(buckets[i], buckets[j])
    ensures forall b: string :: b in buckets <==> exists e <- entries :: e.bucket == b
  {
    var seen: set<string> := {};
    var found: seq<string> := [];
    for i := 0 to |entries|
      invariant forall b: string :: b in seen <==> b in found
      invariant forall b: string :: b in found <==> exists e <- entries[..i] :: e.bucket == b
      invariant DistinctBy(found, Itself())
    {
      var e := entries[i];
      assert entries[..i + 1] == entries[..i] + [e];
      if e.bucket !in seen {
        seen := seen + {e.bucket};
        found := found + [e.bucket];
      }
    }
    assert entries[..|entries|] == entries;
    LessIsWeak();
    buckets := Sort(found, Less);
    SameMembers(buckets, found);
    DistinctPermutes(found, buckets, Itself());
    forall i, j | 0 <= i < j < |buckets| ensures Less(buckets[i], buckets[j]) {
      LessIsTotalOrder(buckets[i], buckets[j], buckets[i]);
    }
  }

  /** The document holds one manifest for each bucket that owns an entry, listing its files. */
  ghost predicate Captures(s: State, doc: Document) {
    && doc.version == DOCUMENT_VERSION
    && (forall m <- doc.buckets :: m.version == 1 && ListsBucket(s, m.bucket, m.files))
    && (forall i, j | 0 <= i < j < |doc.buckets| :: Less(doc.buckets[i].bucket, doc.buckets[j].bucket))
    && (forall k <- s.byKey :: exists m <- doc.buckets :: m.bucket == s.byKey[k].bucket)
    && (forall m <- doc.buckets :: m.files != [])
  }

  method Capture(cat: Catalog, now: int) returns (doc: Document)
    requires cat.Valid()
    ensures Captures(cat.Value(), doc) && doc.capturedAt == now
  {
    RunWellFormed(cat.ranking, EMPTY, cat.history);
    var all := cat.ListAll();
    var buckets := DistinctBuckets(all);
    var manifests: seq<Manifest> := [];
    for i := 0 to |buckets|
      invariant |manifests| == i
      invariant forall j | 0 <= j < i ::
        && manifests[j].version == 1 && manifests[j].bucket == buckets[j]
        && ListsBucket(cat.Value(), buckets[j], manifests[j].files)
    {
      var files := cat.ListByBucket(buckets[i]);
      manifests := manifests + [Manifest(1, buckets[i], files)];
    }
    doc := Document(DOCUMENT_VERSION, now, manifests);
    forall k | k in cat.byKey ensures exists m <- manifests :: m.bucket == cat.byKey[k].bucket {
      assert Lookup(cat.Value(), cat.byKey[k].key) == Some(cat.byKey[k]);
      assert cat.byKey[k] in all;
      assert cat.byKey[k].bucket in buckets;
      var i :| 0 <= i < |buckets| && buckets[i] == cat.byKey[k].bucket;
      assert manifests[i] in manifests;
    }
    forall m | m in manifests ensures m.files != [] {
      var i :| 0 <= i < |manifests| && manifests[i] == m;
      assert buckets[i] in buckets;
      var e :| e in all && e.bucket == buckets[i];
      assert e in m.files;
    }
  }

  /** Loads the document's manifests, encoded again one by one. */
  method Restore(cat: Catalog, doc: Document) returns (ghost manifests: seq<BucketManifest>)
    requires cat.Valid()
    modifies cat
    ensures cat.Valid()
    ensures Encodes(doc, manifests)
    ensures cat.Value() == Loaded(cat.ranking, manifests)
  {
    var encoded: seq<BucketManifest> := [];
    for i := 0 to |doc.buckets|
      invariant |encoded| == i
      invariant forall j | 0 <= j < i ::
        && encoded[j].bucket == doc.buckets[j].bucket
        && encoded[j].content.length > 0 && encoded[j].content.files == Some(doc.buckets[j].files)
    {
      var length: nat :| length > 0;
      encoded := encoded + [BucketManifest(doc.buckets[i].bucket, Body(length, Some(doc.buckets[i].files)))];
    }
    cat.LoadManifests(encoded);
    manifests := encoded;
  }

  ghost predicate Encodes(doc: Document, ms: seq<BucketManifest>) {
    && |ms| == |doc.buckets|
    && forall i | 0 <= i < |ms| ::
         && ms[i].bucket == doc.buckets[i].bucket
         && ms[i].content.length > 0 && ms[i].content.files == Some(doc.buckets[i].files)
  }

  lemma EncodedTranscribes(s: State, doc: Document, ms: seq<BucketManifest>, m: BucketManifest)
    requires Captures(s, doc) && Encodes(doc, ms) && m in ms
    ensures Transcribes(s, m)
  {
  }

  lemma EncodedCovers(s: State, doc: Document, ms: seq<BucketManifest>, k: string)
    requires Captures(s, doc) && Encodes(doc, ms) && k in s.byKey
    ensures exists m :: m in ms && m.bucket == s.byKey[k].bucket
  {
  }

  // ---------------------------------------------------------------------------------------
  // Restoring a capture
  // ---------------------------------------------------------------------------------------

  /** Of the entries that carry the route, this key's is captured last: its bucket comes last by name. */
  ghost predicate CapturedLast(s: State, r: string, k: string) {
    && k in s.byKey && s.byKey[k].route == r
    && forall j <- s.byKey | j != k && s.byKey[j].route == r :: Less(s.byKey[j].bucket, s.byKey[k].bucket)
  }

  /** The route index serves, on each route, the entry that carries it and is captured last. */
  ghost predicate ServesCapturedLast(s: State) {
    forall r: string, k: string :: RouteAt(s, r) == Some(k) <==> CapturedLast(s, r, k)
  }

  lemma ConsistentServesCapturedLast(s: State)
    requires Consistent(s)
    ensures ServesCapturedLast(s)
  {
  }

  ghost predicate BucketsAscend(steps: seq<Step>)
    requires AllRegister(steps)
  {
    forall i, j | 0 <= i < j < |steps| ::
      steps[i].bucket == steps[j].bucket || Less(steps[i].bucket, steps[j].bucket)
  }

  lemma {:induction false} FileStepsOfBucket(bucket: string, files: seq<Entry>)
    requires StrictlySorted(files) && forall e <- files :: e.bucket == bucket
    ensures OncePerKey(FileSteps(bucket, files))
    ensures forall x <- FileSteps(bucket, files) :: x.bucket == bucket && exists e <- files :: e.key == x.key
  {
    if files == [] {
    } else {
      var n := |files| - 1;
      var last := Step.Register(files[n].key, bucket, files[n].size, files[n].lastModified);
      var head, all := FileSteps(bucket, files[..n]), FileSteps(bucket, files);
      FileStepsOfBucket(bucket, files[..n]);
      assert files[n].bucket == bucket && (all == head || all == head + [last]);
      forall x | x in head ensures x.key != last.key && exists e <- files :: e.key == x.key {
        var e :| e in files[..n] && e.key == x.key;
        LessIsTotalOrder(e.key, files[n].key, e.key);
        assert e in files;
      }
      assert files[n] in files;
    }
  }

  lemma AscendStep(rk: Ranking, s: State, a: seq<Step>, b: seq<Step>, bucket: string)
    requires Drawn(rk, s, a) && OncePerKey(a) && BucketsAscend(a) && forall x <- a :: Less(x.bucket, bucket)
    requires Drawn(rk, s, b) && OncePerKey(b) && forall x <- b :: x.bucket == bucket
    ensures AllRegister(a + b) && OncePerKey(a + b) && BucketsAscend(a + b)
  {
    LessIsTotalOrder(bucket, bucket, bucket);
    forall x, y | x in a && y in b ensures x.key != y.key && Less(x.bucket, y.bucket) {
      assert Lookup(s, x.key) == Some(EntryOf(rk, x)) && Lookup(s, y.key) == Some(EntryOf(rk, y));
    }
    forall i, j | 0 <= i < j < |a + b|
      ensures (a + b)[i].key != (a + b)[j].key
      ensures (a + b)[i].bucket == (a + b)[j].bucket || Less((a + b)[i].bucket, (a + b)[j].bucket)
    {
      if i < |a| <= j {
        assert (a + b)[i] in a && (a + b)[j] in b;
      } else if |a| <= i {
        assert (a + b)[i] in b && (a + b)[j] in b;
      }
    }
  }

  /** A capture's manifests record each key once, bucket after bucket. */
  lemma {:induction false} CaptureAscends(rk: Ranking, s: State, ms: seq<BucketManifest>)
    requires WellFormed(rk, s) && forall m <- ms :: Transcribes(s, m)
    requires forall i, j | 0 <= i < j < |ms| :: Less(ms[i].bucket, ms[j].bucket)
    ensures Drawn(rk, s, RecordSteps(ms)) && OncePerKey(RecordSteps(ms)) && BucketsAscend(RecordSteps(ms))
    ensures forall x <- RecordSteps(ms) :: exists m <- ms :: m.bucket == x.bucket
  {
    if ms == [] {
    } else {
      var n := |ms| - 1;
      var m := ms[n];
      assert ms == ms[..n] + [m] && Transcribes(s, m);
      CaptureAscends(rk, s, ms[..n]);
      FileStepsAreDrawn(rk, s, m.bucket, m.content.files.value);
      FileStepsOfBucket(m.bucket, m.content.files.value);
      var a, b := RecordSteps(ms[..n]), ManifestSteps(m);
      forall x | x in a ensures Less(x.bucket, m.bucket) {
        var m' :| m' in ms[..n] && m'.bucket == x.bucket;
      }
      AscendStep(rk, s, a, b, m.bucket);
      CapturedBuckets(ms);
    }
  }

  lemma CapturedBuckets(ms: seq<BucketManifest>)
    requires ms != []
    requires forall x <- RecordSteps(ms[..|ms| - 1]) :: exists m <- ms[..|ms| - 1] :: m.bucket == x.bucket
    requires forall x <- ManifestSteps(ms[|ms| - 1]) :: x.bucket == ms[|ms| - 1].bucket
    ensures forall x <- RecordSteps(ms) :: exists m <- ms :: m.bucket == x.bucket
  {
    var n := |ms| - 1;
    forall x | x in RecordSteps(ms) ensures exists m <- ms :: m.bucket == x.bucket {
      if x in ManifestSteps(ms[n]) {
        assert ms[n] in ms;
      } else {
        assert x in RecordSteps(ms[..n]);
        var m :| m in ms[..n] && m.bucket == x.bucket;
        assert m in ms;
      }
    }
  }

  /** Records of all entries of a catalog, each key once, bucket after bucket. */
  ghost predicate Transcript(rk: Ranking, s: State, steps: seq<Step>) {
    && Drawn(rk, s, steps) && OncePerKey(steps) && BucketsAscend(steps)
    && forall k <- s.byKey :: Covers(steps, k)
  }

  lemma TranscriptEntries(rk: Ranking, s: State, steps: seq<Step>)
    requires Transcript(rk, s, steps)
    ensures Run(rk, EMPTY, steps).byKey == s.byKey
  {
    var t := Run(rk, EMPTY, steps);
    forall k ensures Lookup(t, k) == Lookup(s, k) {
      RegistersLookup(rk, EMPTY, steps, k);
      if Covers(steps, k) {
        var x :| x in steps && x.key == k;
        assert Lookup(EMPTY, k).None?;
      }
    }
    SameLookups(t, s);
  }

  lemma TakesFromEmpty(rk: Ranking, steps: seq<Step>, x: Step, r: string)
    requires AllRegister(steps) && x in steps
    ensures Takes(rk, EMPTY, x, r) <==> Route(x.bucket, x.key) == r
    ensures !Leaves(rk, EMPTY, x, r)
  {
    assert Lookup(EMPTY, x.key).None?;
  }

  /** The last record to take a route has the last bucket by name. */
  lemma LastTakerIsCapturedLast(rk: Ranking, s: State, steps: seq<Step>, r: string, i: nat)
    requires WellFormed(rk, s) && Transcript(rk, s, steps) && LastTaker(rk, EMPTY, steps, r, i)
    ensures CapturedLast(s, r, steps[i].key)
  {
    assert Lookup(s, steps[i].key) == Some(EntryOf(rk, steps[i]));
    forall k | k in s.byKey && k != steps[i].key && s.byKey[k].route == r
      ensures Less(s.byKey[k].bucket, s.byKey[steps[i].key].bucket)
    {
      assert Covers(steps, k);
      var j :| 0 <= j < |steps| && steps[j].key == k;
      assert Lookup(s, k) == Some(EntryOf(rk, steps[j]));
      TakesFromEmpty(rk, steps, steps[j], r);
      DifferentKeysDifferentRoutes(steps[i].bucket, k, steps[i].key);
    }
  }

  lemma CapturedLastIsUnique(s: State, r: string, j: string, k: string)
    requires CapturedLast(s, r, j) && CapturedLast(s, r, k)
    ensures j == k
  {
    if j != k {
      LessIsTotalOrder(s.byKey[j].bucket, s.byKey[k].bucket, s.byKey[j].bucket);
    }
  }

  lemma TranscriptTakes(rk: Ranking, s: State, steps: seq<Step>, k: string)
    requires WellFormed(rk, s) && Transcript(rk, s, steps) && k in s.byKey
    ensures Taken(rk, EMPTY, steps, s.byKey[k].route)
  {
    assert Covers(steps, k);
    var x :| x in steps && x.key == k;
    TakesFromEmpty(rk, steps, x, s.byKey[k].route);
  }

  lemma TranscriptRoutes(rk: Ranking, s: State, steps: seq<Step>, r: string, k: string)
    requires WellFormed(rk, s) && Transcript(rk, s, steps)
    ensures RouteAt(Run(rk, EMPTY, steps), r) == Some(k) <==> CapturedLast(s, r, k)
  {
    forall x, r' | x in steps
      ensures (Takes(rk, EMPTY, x, r') <==> Route(x.bucket, x.key) == r') && !Leaves(rk, EMPTY, x, r')
    {
      TakesFromEmpty(rk, steps, x, r');
    }
    if k in s.byKey { TranscriptTakes(rk, s, steps, k); }
    if Taken(rk, EMPTY, steps, r) {
      var i := TakenHasLast(rk, EMPTY, steps, r);
      LastTakerServes(rk, EMPTY, steps, r, i);
      LastTakerIsCapturedLast(rk, s, steps, r, i);
      if CapturedLast(s, r, k) { CapturedLastIsUnique(s, r, steps[i].key, k); }
    } else {
      UntouchedRoute(rk, EMPTY, steps, r);
    }
  }

  /** Which entry is captured last is a matter of the entries, so it determines such a route index. */
  lemma CapturedLastDetermines(s: State, t: State)
    requires s.byKey == t.byKey && ServesCapturedLast(s) && ServesCapturedLast(t)
    ensures s == t
  {
    forall r: string ensures RouteAt(s, r) == RouteAt(t, r) {
      if RouteAt(s, r).Some? {
        SameCapturedLast(s, t, r, RouteAt(s, r).value);
      }
      if RouteAt(t, r).Some? {
        SameCapturedLast(s, t, r, RouteAt(t, r).value);
      }
    }
    SameRoutes(s, t);
  }

  lemma SameCapturedLast(s: State, t: State, r: string, k: string)
    requires s.byKey == t.byKey && ServesCapturedLast(s) && ServesCapturedLast(t)
    ensures RouteAt(s, r) == Some(k) <==> RouteAt(t, r) == Some(k)
  {
    assert CapturedLast(s, r, k) <==> CapturedLast(t, r, k);
  }

  lemma {:induction false} TranscriptRestoresIff(rk: Ranking, s: State, steps: seq<Step>)
    requires WellFormed(rk, s) && Transcript(rk, s, steps)
    ensures Run(rk, EMPTY, steps) == s <==> ServesCapturedLast(s)
  {
    var t := Run(rk, EMPTY, steps);
    TranscriptEntries(rk, s, steps);
    forall r: string, k: string ensures RouteAt(t, r) == Some(k) <==> CapturedLast(t, r, k) {
      TranscriptRoutes(rk, s, steps, r, k);
      assert CapturedLast(t, r, k) <==> CapturedLast(s, r, k);
    }
    if ServesCapturedLast(s) { CapturedLastDetermines(t, s); }
  }

  /** The manifests of a capture without empty keys are a transcript. */
  lemma {:induction false} CaptureIsTranscript(rk: Ranking, s: State, doc: Document, ms: seq<BucketManifest>)
    requires WellFormed(rk, s) && Captures(s, doc) && Encodes(doc, ms) && "" !in s.byKey
    ensures Transcript(rk, s, RecordSteps(ms))
  {
    forall m | m in ms ensures Transcribes(s, m) {
      EncodedTranscribes(s, doc, ms, m);
    }
    CaptureAscends(rk, s, ms);
    TranscriptsAreDrawn(rk, s, ms);
    forall k | k in s.byKey ensures Covers(RecordSteps(ms), k) {
      EncodedCovers(s, doc, ms, k);
    }
  }

  lemma {:induction false} RestoredIff(rk: Ranking, s: State, doc: Document, ms: seq<BucketManifest>)
    requires WellFormed(rk, s) && Captures(s, doc) && Encodes(doc, ms)
    ensures Loaded(rk, ms) == s <==> "" !in s.byKey && ServesCapturedLast(s)
  {
    if "" in s.byKey {
      forall m | m in ms ensures Transcribes(s, m) {
        EncodedTranscribes(s, doc, ms, m);
      }
      TranscriptsAreDrawn(rk, s, ms);
      UnrecordedKeyIsAbsent(rk, RecordSteps(ms), "");
    } else {
      CaptureIsTranscript(rk, s, doc, ms);
      TranscriptRestoresIff(rk, s, RecordSteps(ms));
    }
  }

  /** Restoring a capture reproduces both maps, whatever the target held before, exactly when no key
      is empty and each route serves the entry captured last; consistent catalogs meet the latter. */
  method RestoreCapture(cat: Catalog, target: Catalog, now: int)
    requires cat.Valid() && target.Valid() && cat != target && target.ranking == cat.ranking
    modifies target
    ensures target.Valid()
    ensures target.Value() == cat.Value() <==> "" !in cat.byKey && ServesCapturedLast(cat.Value())
    ensures Consistent(cat.Value()) ==> (target.Value() == cat.Value() <==> "" !in cat.byKey)
  {
    RunWellFormed(cat.ranking, EMPTY, cat.history);
    var doc := Capture(cat, now);
    ghost var ms := Restore(target, doc);
    RestoredIff(cat.ranking, cat.Value(), doc, ms);
    if Consistent(cat.Value()) { ConsistentServesCapturedLast(cat.Value()); }
  }

  /** Buckets "a/b" and "a": the route both entries carry serves the one set last, and a capture
      would have it serve the other. */
  lemma NestedRouteIsNotRestored(rk: Ranking)
    ensures var s := Run(rk, EMPTY, [Step.Set("k", "a/b", 0, ""), Step.Set("b/k", "a", 0, "")]);
            && "" !in s.byKey && RouteAt(s, "/a/b/k") == Some("b/k") && CapturedLast(s, "/a/b/k", "k")
            && !ServesCapturedLast(s)
  {
    var first, second := Step.Set("k", "a/b", 0, ""), Step.Set("b/k", "a", 0, "");
    RunTwo(rk, EMPTY, first, second);
    var s := Run(rk, EMPTY, [first, second]);
    assert Route("a", "b/k") == "/a/b/k" == Route("a/b", "k");
    assert |first.key| != |second.key|;
    assert s.byKey == map["k" := EntryOf(rk, first), "b/k" := EntryOf(rk, second)];
    assert "a" <= "a/b" && Less("a", "a/b");
    assert CapturedLast(s, "/a/b/k", "k");
  }
}
