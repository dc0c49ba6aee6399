/** The in-memory registry object. Its methods change the two maps in place; the ghost history
    records the atomic steps taken since it was created. */
module Catalogs {
  import opened Outcomes
  import opened Strings
  import opened Sequences
  import opened Sorting
  import opened CatalogState

  predicate KeyOrder(a: Entry, b: Entry) {
    Less(a.key, b.key)
  }

  lemma KeyOrderIsWeak()
    ensures WeakOrder(KeyOrder)
  {
    forall a: Entry, b: Entry ensures KeyOrder(a, b) ==> !KeyOrder(b, a) {
      LessIsTotalOrder(a.key, b.key, a.key);
    }
    forall a: Entry, b: Entry, c: Entry ensures !KeyOrder(b, a) && !KeyOrder(c, b) ==> !KeyOrder(c, a) {
      LessIsTotalOrder(a.key, b.key, c.key);
      LessIsTotalOrder(c.key, a.key, b.key);
      LessIsTotalOrder(b.key, c.key, a.key);
    }
  }

  predicate DistinctKeys(es: seq<Entry>) {
    forall i, j | 0 <= i < j < |es| :: es[i].key != es[j].key
  }

  lemma SortedDistinctIsStrict(es: seq<Entry>)
    requires NoInversions(es, KeyOrder) && DistinctKeys(es)
    ensures StrictlySorted(es)
  {
    forall i, j | 0 <= i < j < |es| ensures Less(es[i].key, es[j].key) {
      assert !KeyOrder(es[j], es[i]);
      LessIsTotalOrder(es[i].key, es[j].key, es[i].key);
    }
  }

  lemma DistinctKeysPermute(a: seq<Entry>, b: seq<Entry>)
    requires multiset(a) == multiset(b) && DistinctKeys(a)
    ensures DistinctKeys(b)
  {
    var key := (e: Entry) => e.key;
    DistinctPermutes(a, b, key);
    assert forall i, j | 0 <= i < j < |b| :: key(b[i]) != key(b[j]);
  }

  /** `sort.Slice` by key, as every listing uses it. */
  method SortByKey(es: seq<Entry>) returns (r: seq<Entry>)
    ensures multiset(r) == multiset(es)
    ensures forall e: Entry :: e in r <==> e in es
    ensures DistinctKeys(es) ==> StrictlySorted(r)
  {
    KeyOrderIsWeak();
    r := Sort(es, KeyOrder);
    SameMembers(r, es);
    if DistinctKeys(es) {
      DistinctKeysPermute(es, r);
      SortedDistinctIsStrict(r);
    }
  }

  class Catalog {
    const ranking: Ranking
    var byKey: map<string, Entry>
    var byRoute: map<string, string>
    ghost var history: seq<Step>

    function Value(): State
      reads this
    {
      State(byKey, byRoute)
    }

    ghost predicate Valid()
      reads this
    {
      Value() == Run(ranking, EMPTY, history)
    }

    constructor (ranking: Ranking)
      ensures Valid() && this.ranking == ranking && Value() == EMPTY && history == []
    {
      this.ranking := ranking;
      byKey, byRoute, history := map[], map[], [];
    }

    /** The two maps hold exactly this entry for the key, on the route /bucket/key, in place of whatever
        entry and route it had. */
    ghost predicate Holds(key: string, bucket: string, size: int, lastModified: string, byKey0: map<string, Entry>,
        byRoute0: map<string, string>)
      reads this
    {
      && byKey == byKey0[key := Entry(key, bucket, ranking.bucketType(bucket), "/" + bucket + "/" + key, size,
           lastModified)]
      && byRoute == (byRoute0 - if key in byKey0 then {byKey0[key].route} else {})["/" + bucket + "/" + key := key]
    }

    method Register(key: string, bucket: string, size: int, lastModified: string)
      requires Valid()
      modifies this
      ensures Valid() && history == old(history) + [Step.Register(key, bucket, size, lastModified)]
      ensures Value() == Apply(ranking, old(Value()), Step.Register(key, bucket, size, lastModified))
      ensures if key in old(byKey) && ranking.priority(old(byKey)[key].bucket) < ranking.priority(bucket)
              then byKey == old(byKey) && byRoute == old(byRoute)
              else Holds(key, bucket, size, lastModified, old(byKey), old(byRoute))
    {
      Record(Step.Register(key, bucket, size, lastModified));
      if key in byKey {
        var existing := byKey[key];
        if ranking.priority(existing.bucket) < ranking.priority(bucket) {
          return;
        }
        byRoute := byRoute - {existing.route};
      }
      var entry := MakeEntry(ranking, key, bucket, size, lastModified);
      byKey := byKey[key := entry];
      byRoute := byRoute[entry.route := key];
    }

    method Set(key: string, bucket: string, size: int, lastModified: string)
      requires Valid()
      modifies this
      ensures Valid() && history == old(history) + [Step.Set(key, bucket, size, lastModified)]
      ensures Value() == Apply(ranking, old(Value()), Step.Set(key, bucket, size, lastModified))
      ensures Holds(key, bucket, size, lastModified, old(byKey), old(byRoute))
    {
      Record(Step.Set(key, bucket, size, lastModified));
      if key in byKey {
        byRoute := byRoute - {byKey[key].route};
      }
      var entry := MakeEntry(ranking, key, bucket, size, lastModified);
      byKey := byKey[key := entry];
      byRoute := byRoute[entry.route := key];
    }

    method Remove(key: string)
      requires Valid()
      modifies this
      ensures Valid() && history == old(history) + [Step.Remove(key)]
      ensures Value() == Apply(ranking, old(Value()), Step.Remove(key))
      ensures byKey == old(byKey) - {key}
      ensures byRoute == old(byRoute) - if key in old(byKey) then {old(byKey)[key].route} else {}
    {
      Record(Step.Remove(key));
      if key in byKey {
        byRoute := byRoute - {byKey[key].route};
      }
      byKey := byKey - {key};
    }

    method Clear()
      requires Valid()
      modifies this
      ensures Valid() && history == old(history) + [Step.Clear]
      ensures Value() == EMPTY == Run(ranking, EMPTY, history)
    {
      Record(Step.Clear);
      byKey, byRoute := map[], map[];
    }

    /** Appends a step to the history; the caller then carries it out. */
    ghost method Record(step: Step)
      modifies this`history
      ensures history == old(history) + [step]
      ensures Run(ranking, EMPTY, history) == Apply(ranking, Run(ranking, EMPTY, old(history)), step)
    {
      history := history + [step];
      assert history[..|history| - 1] == old(history);
    }

    /** Every registered entry, in key order. */
    method ListAll() returns (result: seq<Entry>)
      requires Valid()
      ensures StrictlySorted(result)
      ensures forall e: Entry :: e in result <==> Lookup(Value(), e.key) == Some(e)
    {
      RunWellFormed(ranking, EMPTY, history);
      var unsorted: seq<Entry> := [];
      var todo := byKey.Keys;
      while todo != {}
        invariant todo <= byKey.Keys
        invariant forall e: Entry :: e in unsorted <==> Lookup(Value(), e.key) == Some(e) && e.key !in todo
        invariant DistinctKeys(unsorted)
        decreases todo
      {
        var k :| k in todo;
        unsorted := unsorted + [byKey[k]];
        todo := todo - {k};
      }
      result := SortByKey(unsorted);
    }

    method ListByBucket(bucket: string) returns (result: seq<Entry>)
      requires Valid()
      ensures ListsBucket(Value(), bucket, result)
    {
      var all := ListAll();
      result := [];
      for i := 0 to |all|
        invariant StrictlySorted(result)
        invariant forall e: Entry :: e in result <==> e in all[..i] && e.bucket == bucket
      {
        if all[i].bucket == bucket {
          assert forall e <- result :: Less(e.key, all[i].key);
          result := result + [all[i]];
        }
        assert all[..i + 1] == all[..i] + [all[i]];
      }
      assert all[..|all|] == all;
    }

    /** Replaces the contents by the given manifests, one registration per usable record. */
    method LoadManifests(manifests: seq<BucketManifest>)
      requires Valid()
      modifies this
      ensures Valid()
      ensures Value() == Loaded(ranking, manifests)
      ensures history == old(history) + [Step.Clear] + RecordSteps(manifests)
    {
      Clear();
      ghost var cleared := history;
      for i := 0 to |manifests|
        invariant Valid()
        invariant history == cleared + RecordSteps(manifests[..i])
      {
        LoadManifest(manifests[i]);
        RecordStepsGrow(cleared, manifests, i);
      }
      assert manifests[..|manifests|] == manifests;
      RunAfterClear(ranking, old(history), RecordSteps(manifests));
    }

    /** The inner loop of LoadManifests. */
    method LoadManifest(m: BucketManifest)
      requires Valid()
      modifies this
      ensures Valid()
      ensures history == old(history) + ManifestSteps(m)
    {
      if m.content.length == 0 || m.content.files.None? {
        return;
      }
      var files := m.content.files.value;
      for i := 0 to |files|
        invariant Valid()
        invariant history == old(history) + FileSteps(m.bucket, files[..i])
      {
        var item := files[i];
        assert files[..i + 1][..i] == files[..i];
        if item.key != "" {
          var bucket := if item.bucket == "" then m.bucket else item.bucket;
          Register(item.key, bucket, item.size, item.lastModified);
        }
        assert history == old(history) + FileSteps(m.bucket, files[..i + 1]);
      }
      assert files[..|files|] == files;
    }
  }
}
