/** One pass over storage: the registrations a sync makes, bucket by bucket, and what they do to
    both maps of the catalog. */
module Syncs {
  import opened Outcomes
  import opened GenericFormat
  import opened CatalogState
  import opened Routes
  import opened Config
  import opened Storage
  import opened View

  // ---------------------------------------------------------------------------------------
  // Passes
  // ---------------------------------------------------------------------------------------

  /** Registrations come in the order of their buckets. */
  ghost predicate InOrder(bs: seq<Bucket>, st: Objects, steps: seq<Step>)
    requires AllRegister(steps)
  {
    if steps == [] then true
    else
      var n := |steps| - 1;
      && InOrder(bs, st, steps[..n])
      && forall x <- steps[..n] :: FirstKeeper(bs, st, x.key) <= FirstKeeper(bs, st, steps[n].key)
  }

  lemma {:induction false} InOrderPairs(bs: seq<Bucket>, st: Objects, steps: seq<Step>, i: nat, j: nat)
    requires AllRegister(steps) && InOrder(bs, st, steps) && i < j < |steps|
    ensures FirstKeeper(bs, st, steps[i].key) <= FirstKeeper(bs, st, steps[j].key)
  {
    var n := |steps| - 1;
    if j == n {
      assert steps[i] in steps[..n];
    } else {
      InOrderPairs(bs, st, steps[..n], i, j);
    }
  }

  /** A bucket's registrations, appended to those of earlier buckets. */
  lemma {:induction false} InOrderAppend(bs: seq<Bucket>, st: Objects, a: seq<Step>, b: seq<Step>, n: nat)
    requires AllRegister(a) && AllRegister(b) && AllRegister(a + b) && InOrder(bs, st, a)
    requires forall x <- a :: FirstKeeper(bs, st, x.key) <= n
    requires forall x <- b :: FirstKeeper(bs, st, x.key) == n
    ensures InOrder(bs, st, a + b)
  {
    if b == [] {
      assert a + b == a;
    } else {
      var m := |b| - 1;
      assert (a + b)[..|a + b| - 1] == a + b[..m];
      InOrderAppend(bs, st, a, b[..m], n);
    }
  }

  /** The registrations of the first n buckets: every key they keep, once, under its first keeper,
      bucket by bucket. */
  ghost predicate PassUpTo(bs: seq<Bucket>, st: Objects, n: nat, steps: seq<Step>)
    requires n <= |bs|
  {
    && AllRegister(steps) && OncePerKey(steps) && InOrder(bs, st, steps)
    && (forall x <- steps :: FirstKeeper(bs, st, x.key) < n && Ideal(bs, st, x.key) == Some(EntryOf(RankingOf(bs), x)))
    && (forall k: string | FirstKeeper(bs, st, k) < n :: Covers(steps, k))
  }

  ghost predicate IsPass(bs: seq<Bucket>, st: Objects, steps: seq<Step>) {
    PassUpTo(bs, st, |bs|, steps)
  }

  /** A pass that a failed listing may have ended before some bucket. */
  ghost predicate IsPartialPass(bs: seq<Bucket>, st: Objects, steps: seq<Step>) {
    exists n: nat :: n <= |bs| && PassUpTo(bs, st, n, steps)
  }

  /** The keys the first n buckets keep end up as a sync leaves them, the others as they were. */
  lemma PassReaches(bs: seq<Bucket>, s: State, st: Objects, n: nat, steps: seq<Step>)
    requires n <= |bs| && PassUpTo(bs, st, n, steps)
    ensures SyncedTo(bs, s, st, n, Run(RankingOf(bs), s, steps))
  {
    forall k: string
      ensures Lookup(Run(RankingOf(bs), s, steps), k) ==
              if FirstKeeper(bs, st, k) < n then Synced(bs, s, st, k) else Lookup(s, k)
    {
      RegistersLookup(RankingOf(bs), s, steps, k);
      if FirstKeeper(bs, st, k) < n {
        assert Covers(steps, k);
        var x :| x in steps && x.key == k;
      }
    }
  }

  lemma PartialPassReaches(bs: seq<Bucket>, s: State, st: Objects, steps: seq<Step>)
    requires IsPartialPass(bs, st, steps)
    ensures SyncedPartly(bs, s, st, Run(RankingOf(bs), s, steps))
    ensures IsPass(bs, st, steps) ==> IsSynced(bs, s, st, Run(RankingOf(bs), s, steps))
  {
    var n: nat :| n <= |bs| && PassUpTo(bs, st, n, steps);
    PassReaches(bs, s, st, n, steps);
    if IsPass(bs, st, steps) {
      PassReaches(bs, s, st, |bs|, steps);
      SyncedToEnd(bs, s, st, Run(RankingOf(bs), s, steps));
    }
  }

  lemma PassIsOverStorage(bs: seq<Bucket>, st: Objects, steps: seq<Step>)
    requires IsPartialPass(bs, st, steps)
    ensures AllRegister(steps) && Over(steps, StorageNames(bs)) && Over(steps, Names(bs))
  {
    var n: nat :| n <= |bs| && PassUpTo(bs, st, n, steps);
    forall x | x in steps ensures x.bucket in StorageNames(bs) && x.bucket in Names(bs) {
      var b := bs[FirstKeeper(bs, st, x.key)];
      assert Keeps(b, st, x.key) && EntryOf(RankingOf(bs), x).bucket == b.name;
    }
  }

  /** What a pass appended to a history leads to. */
  lemma PassResult(bs: seq<Bucket>, before: seq<Step>, st: Objects, pass: seq<Step>)
    requires IsPartialPass(bs, st, pass)
    ensures var s, t := Run(RankingOf(bs), EMPTY, before), Run(RankingOf(bs), EMPTY, before + pass);
            && t == Run(RankingOf(bs), s, pass) && SyncedPartly(bs, s, st, t)
            && (IsPass(bs, st, pass) ==> IsSynced(bs, s, st, t))
    ensures OnlyRegisters(before, before + pass, Names(bs))
  {
    RunConcat(RankingOf(bs), EMPTY, before, pass);
    PartialPassReaches(bs, Run(RankingOf(bs), EMPTY, before), st, pass);
    PassIsOverStorage(bs, st, pass);
  }

  // ---------------------------------------------------------------------------------------
  // A second pass
  // ---------------------------------------------------------------------------------------

  /** The catalog's maps are inverse, and every owner is a configured storage bucket. */
  ghost predicate Orderly(bs: seq<Bucket>, s: State) {
    WellFormed(RankingOf(bs), s) && Consistent(s) && OwnersIn(s, StorageNames(bs))
  }

  lemma PassKeepsOrderly(bs: seq<Bucket>, s: State, st: Objects, p: seq<Step>)
    requires Unnested(StorageNames(bs)) && Orderly(bs, s) && IsPartialPass(bs, st, p)
    ensures Orderly(bs, Run(RankingOf(bs), s, p))
  {
    PassIsOverStorage(bs, st, p);
    RunConsistent(RankingOf(bs), s, p, StorageNames(bs));
  }

  /** No storage bucket's name and lower-ranked one of these names nest, either way round. */
  ghost predicate Apart(bs: seq<Bucket>, names: set<string>) {
    forall x, y | x in StorageNames(bs) && y in names && BucketPriority(bs, x) < BucketPriority(bs, y) ::
      !Nests(x, y) && !Nests(y, x)
  }

  lemma PassStepBucket(bs: seq<Bucket>, st: Objects, p: seq<Step>, x: Step)
    requires DistinctNames(bs) && IsPass(bs, st, p) && x in p
    ensures var i := FirstKeeper(bs, st, x.key);
            i < |bs| && x.bucket == bs[i].name && BucketPriority(bs, x.bucket) == i && x.bucket in StorageNames(bs)
  {
    var i := FirstKeeper(bs, st, x.key);
    assert Ideal(bs, st, x.key) == Some(EntryOf(RankingOf(bs), x));
    RankIsPosition(bs, i);
    assert bs[i] in bs && Keeps(bs[i], st, x.key);
  }

  lemma PassRanks(bs: seq<Bucket>, st: Objects, p: seq<Step>, i: nat, j: nat)
    requires DistinctNames(bs) && IsPass(bs, st, p) && i < j < |p|
    ensures p[i].key != p[j].key && p[i].bucket in StorageNames(bs)
    ensures BucketPriority(bs, p[i].bucket) <= BucketPriority(bs, p[j].bucket) < |bs|
  {
    PassStepBucket(bs, st, p, p[i]);
    PassStepBucket(bs, st, p, p[j]);
    InOrderPairs(bs, st, p, i, j);
  }

  /** A key moved off the route another key took is one that a lower-ranked, nested name owned. */
  lemma LeftByNested(bs: seq<Bucket>, s: State, x: Step, y: Step)
    requires WellFormed(RankingOf(bs), s) && x.Register? && y.Register? && x.key != y.key
    requires BucketPriority(bs, x.bucket) <= BucketPriority(bs, y.bucket) < |bs|
    requires Leaves(RankingOf(bs), s, y, Route(x.bucket, x.key))
    ensures var owner := s.byKey[y.key].bucket;
            && BucketPriority(bs, x.bucket) < BucketPriority(bs, owner)
            && (Nests(x.bucket, owner) || Nests(owner, x.bucket))
  {
    var owner := s.byKey[y.key].bucket;
    RouteCollision(x.bucket, x.key, owner, y.key);
    assert |x.bucket| != |owner|;
  }

  lemma ApartNeverUndoes(bs: seq<Bucket>, s: State, st: Objects, p: seq<Step>, names: set<string>)
    requires DistinctNames(bs) && IsPass(bs, st, p)
    requires WellFormed(RankingOf(bs), s) && OwnersIn(s, names) && Apart(bs, names)
    ensures NoUndo(RankingOf(bs), s, p)
  {
    forall i, j | 0 <= i < j < |p| && Admitted(RankingOf(bs), s, p[i])
      ensures !Leaves(RankingOf(bs), s, p[j], Route(p[i].bucket, p[i].key))
    {
      if Leaves(RankingOf(bs), s, p[j], Route(p[i].bucket, p[i].key)) {
        PassRanks(bs, st, p, i, j);
        LeftByNested(bs, s, p[i], p[j]);
        assert false;
      }
    }
  }

  /** Two passes over the same files make the same registrations. */
  lemma PassesRegisterTheSame(bs: seq<Bucket>, a: Objects, p: seq<Step>, b: Objects, q: seq<Step>, x: Step)
    requires DistinctNames(bs) && SameFiles(bs, a, b) && IsPass(bs, a, p) && IsPass(bs, b, q) && x in p
    ensures x in q
  {
    SameIdeal(bs, a, b, x.key);
    assert Covers(q, x.key);
    var y :| y in q && y.key == x.key;
    assert EntryOf(RankingOf(bs), x) == EntryOf(RankingOf(bs), y);
  }

  /** After a pass, a registration of it that was admitted would leave its entry as it is, and the
      others would still be refused. */
  lemma AdmittedAgain(bs: seq<Bucket>, s: State, st: Objects, p: seq<Step>, x: Step, r: string)
    requires IsPass(bs, st, p) && x in p
    ensures var rk, t := RankingOf(bs), Run(RankingOf(bs), s, p);
            (Takes(rk, t, x, r) <==> Takes(rk, s, x, r)) && !Leaves(rk, t, x, r)
  {
    RegistersLookup(RankingOf(bs), s, p, x.key);
  }

  lemma NoLaterTaker(bs: seq<Bucket>, s: State, st: Objects, p: seq<Step>, r: string, i: nat, j: nat)
    requires AllRegister(p) && InOrder(bs, st, p)
    requires LastTaker(RankingOf(bs), s, p, r, i) && j < |p| && Takes(RankingOf(bs), s, p[j], r)
    ensures FirstKeeper(bs, st, p[j].key) <= FirstKeeper(bs, st, p[i].key)
  {
    if j < i { InOrderPairs(bs, st, p, j, i); }
  }

  lemma OneTakerPerBucket(bs: seq<Bucket>, st: Objects, p: seq<Step>, x: Step, y: Step)
    requires DistinctNames(bs) && IsPass(bs, st, p) && x in p && y in p
    requires FirstKeeper(bs, st, x.key) == FirstKeeper(bs, st, y.key)
    requires Route(x.bucket, x.key) == Route(y.bucket, y.key)
    ensures x == y
  {
    PassStepBucket(bs, st, p, x);
    PassStepBucket(bs, st, p, y);
    if x.key != y.key { DifferentKeysDifferentRoutes(x.bucket, x.key, y.key); }
  }

  /** The last registration to take a route is the same in all passes over the same files. */
  lemma LastTakerIsFixed(bs: seq<Bucket>, s: State, a: Objects, p: seq<Step>, i: nat, b: Objects, q: seq<Step>, j: nat,
      r: string)
    requires DistinctNames(bs) && SameFiles(bs, a, b) && IsPass(bs, a, p) && IsPass(bs, b, q)
    requires LastTaker(RankingOf(bs), s, p, r, i) && LastTaker(RankingOf(bs), s, q, r, j)
    ensures p[i] == q[j]
  {
    var x, y := p[i], q[j];
    PassesRegisterTheSame(bs, a, p, b, q, x);
    PassesRegisterTheSame(bs, b, q, a, p, y);
    SameIdeal(bs, a, b, x.key);
    SameIdeal(bs, a, b, y.key);
    var j': nat :| j' < |p| && p[j'] == y;
    var i': nat :| i' < |q| && q[i'] == x;
    NoLaterTaker(bs, s, a, p, r, i, j');
    NoLaterTaker(bs, s, b, q, r, j, i');
    OneTakerPerBucket(bs, a, p, x, y);
  }

  /** A second complete pass over the same files changes neither map, if no owner ranks below a
      storage bucket whose name nests with its own. */
  lemma SecondPassChangesNothing(bs: seq<Bucket>, s: State, a: Objects, p: seq<Step>, b: Objects, q: seq<Step>,
      names: set<string>)
    requires DistinctNames(bs) && SameFiles(bs, a, b) && IsPass(bs, a, p) && IsPass(bs, b, q)
    requires WellFormed(RankingOf(bs), s) && OwnersIn(s, names) && Apart(bs, names)
    ensures var t := Run(RankingOf(bs), s, p); Run(RankingOf(bs), t, q) == t
  {
    var t := Run(RankingOf(bs), s, p);
    var u := Run(RankingOf(bs), t, q);
    PartialPassReaches(bs, s, a, p);
    PartialPassReaches(bs, t, b, q);
    SyncIsIdempotent(bs, s, a, t, b, u);
    ApartNeverUndoes(bs, s, a, p, names);
    forall r: string ensures RouteAt(u, r) == RouteAt(t, r) {
      SecondPassRoute(bs, s, a, p, b, q, r);
    }
    SameRoutes(u, t);
  }

  /** Seen from the catalog after one pass, the next takes the same routes and leaves none. */
  ghost predicate TakesAgain(rk: Ranking, s: State, t: State, q: seq<Step>)
    requires AllRegister(q)
  {
    forall x <- q, r: string :: (Takes(rk, t, x, r) <==> Takes(rk, s, x, r)) && !Leaves(rk, t, x, r)
  }

  lemma PassTakesAgain(bs: seq<Bucket>, s: State, a: Objects, p: seq<Step>, b: Objects, q: seq<Step>)
    requires DistinctNames(bs) && SameFiles(bs, a, b) && IsPass(bs, a, p) && IsPass(bs, b, q)
    ensures TakesAgain(RankingOf(bs), s, Run(RankingOf(bs), s, p), q)
  {
    var rk := RankingOf(bs);
    var t := Run(rk, s, p);
    forall x, r: string | x in q ensures (Takes(rk, t, x, r) <==> Takes(rk, s, x, r)) && !Leaves(rk, t, x, r) {
      PassesRegisterTheSame(bs, b, q, a, p, x);
      AdmittedAgain(bs, s, a, p, x, r);
    }
  }

  lemma SecondPassRoute(bs: seq<Bucket>, s: State, a: Objects, p: seq<Step>, b: Objects, q: seq<Step>, r: string)
    requires DistinctNames(bs) && SameFiles(bs, a, b) && IsPass(bs, a, p) && IsPass(bs, b, q)
    requires NoUndo(RankingOf(bs), s, p)
    ensures var t := Run(RankingOf(bs), s, p); RouteAt(Run(RankingOf(bs), t, q), r) == RouteAt(t, r)
  {
    var rk := RankingOf(bs);
    var t := Run(rk, s, p);
    PassTakesAgain(bs, s, a, p, b, q);
    if Taken(rk, t, q, r) {
      var j := TakenHasLast(rk, t, q, r);
      PassesRegisterTheSame(bs, b, q, a, p, q[j]);
      var i := TakenHasLast(rk, s, p, r);
      LastTakerIsFixed(bs, s, a, p, i, b, q, j, r);
      LastTakerServes(rk, s, p, r, i);
      LastTakerServes(rk, t, q, r, j);
    } else {
      UntouchedRoute(rk, t, q, r);
    }
  }

  /** Storage bucket i keeps two keys, of which c has the route that the other key d has under the
      lower-ranked name y. */
  ghost predicate Contested(bs: seq<Bucket>, i: nat, c: string, y: string, d: string) {
    && DistinctNames(bs) && i < |bs| && bs[i].HasStorage() && i < BucketPriority(bs, y)
    && c != d && Route(bs[i].name, c) == Route(y, d)
    && c != bs[i].manifestKey && d != bs[i].manifestKey
  }

  function BothFiles(bucket: string, c: string, d: string): Objects {
    map[(bucket, c) := Object("", Body(0, None)), (bucket, d) := Object("", Body(0, None))]
  }

  function BothSteps(bucket: string, c: string, d: string): seq<Step> {
    [Register(c, bucket, 0, ""), Register(d, bucket, 0, "")]
  }

  function OneRecord(rk: Ranking, bucket: string, d: string): State {
    State(map[d := MakeEntry(rk, d, bucket, 0, "")], map[Route(bucket, d) := d])
  }

  lemma OnlyKeeper(bs: seq<Bucket>, i: nat, c: string, d: string, k: string)
    requires DistinctNames(bs) && i < |bs| && bs[i].HasStorage() && c != bs[i].manifestKey && d != bs[i].manifestKey
    ensures FirstKeeper(bs, BothFiles(bs[i].name, c, d), k) == if k == c || k == d then i else |bs|
  {
    var st := BothFiles(bs[i].name, c, d);
    assert k == c || k == d ==> Keeps(bs[i], st, k);
  }

  lemma BothStepsArePass(bs: seq<Bucket>, i: nat, c: string, y: string, d: string)
    requires Contested(bs, i, c, y, d)
    ensures IsPass(bs, BothFiles(bs[i].name, c, d), BothSteps(bs[i].name, c, d))
  {
    var st, steps := BothFiles(bs[i].name, c, d), BothSteps(bs[i].name, c, d);
    forall k: string ensures FirstKeeper(bs, st, k) == if k == c || k == d then i else |bs| {
      OnlyKeeper(bs, i, c, d, k);
    }
    assert Ideal(bs, st, c) == Some(EntryOf(RankingOf(bs), steps[0]));
    assert Ideal(bs, st, d) == Some(EntryOf(RankingOf(bs), steps[1]));
    assert steps[0] in steps && steps[1] in steps;
    assert Covers(steps, c) && Covers(steps, d);
    assert InOrder(bs, st, steps[..1]);
  }

  /** Both keys registered under one bucket, with these routes indexed. */
  function BothEntries(rk: Ranking, bucket: string, c: string, d: string, byRoute: map<string, string>): State {
    State(map[c := MakeEntry(rk, c, bucket, 0, ""), d := MakeEntry(rk, d, bucket, 0, "")], byRoute)
  }

  /** The first pass moves a record off the route that the other key has just taken over, and deletes the route. */
  lemma RouteIsLost(rk: Ranking, x: string, c: string, y: string, d: string)
    requires c != d && Route(x, c) == Route(y, d) && rk.priority(x) < rk.priority(y)
    ensures Run(rk, OneRecord(rk, y, d), BothSteps(x, c, d)) == BothEntries(rk, x, c, d, map[Route(x, d) := d])
  {
    var s := OneRecord(rk, y, d);
    var c', d' := Register(c, x, 0, ""), Register(d, x, 0, "");
    RunTwo(rk, s, c', d');
    DifferentKeysDifferentRoutes(x, c, d);
    var mid := Apply(rk, s, c');
    assert mid.byRoute == map[Route(x, c) := c];
    assert mid.byKey == map[c := EntryOf(rk, c'), d := s.byKey[d]];
  }

  /** The second pass restores it. */
  lemma RouteIsRestored(rk: Ranking, x: string, c: string, d: string)
    requires c != d
    ensures Run(rk, BothEntries(rk, x, c, d, map[Route(x, d) := d]), BothSteps(x, c, d)) ==
            BothEntries(rk, x, c, d, map[Route(x, c) := c, Route(x, d) := d])
  {
    var t := BothEntries(rk, x, c, d, map[Route(x, d) := d]);
    var c', d' := Register(c, x, 0, ""), Register(d, x, 0, "");
    RunTwo(rk, t, c', d');
    RegisterAgain(rk, t, c');
    RegisterAgain(rk, Apply(rk, t, c'), d');
  }

  lemma RegisterAgain(rk: Ranking, s: State, step: Step)
    requires step.Register? && Lookup(s, step.key) == Some(EntryOf(rk, step))
    ensures Apply(rk, s, step) == s.(byRoute := s.byRoute[Route(step.bucket, step.key) := step.key])
  {
    var t := Apply(rk, s, step);
    assert t.byKey == s.byKey;
    assert t.byRoute == s.byRoute[Route(step.bucket, step.key) := step.key];
  }

  /** The catalog in which y owns d is well formed and consistent, and its second pass changes the route index. */
  lemma SecondPassRestoresRoute(bs: seq<Bucket>, i: nat, c: string, y: string, d: string)
    requires Contested(bs, i, c, y, d)
    ensures var rk, p, s := RankingOf(bs), BothSteps(bs[i].name, c, d), OneRecord(RankingOf(bs), y, d);
            var t := Run(rk, s, p);
            && WellFormed(rk, s) && Consistent(s) && OwnersIn(s, {y})
            && Run(rk, t, p).byKey == t.byKey && Run(rk, t, p).byRoute != t.byRoute
  {
    var rk := RankingOf(bs);
    RankIsPosition(bs, i);
    RouteIsLost(rk, bs[i].name, c, y, d);
    RouteIsRestored(rk, bs[i].name, c, d);
    DifferentKeysDifferentRoutes(bs[i].name, c, d);
    var lost := map[Route(bs[i].name, d) := d];
    assert Route(bs[i].name, c) !in lost;
  }

  /** Nested names admit contested keys. */
  lemma NestedNamesAreContested(bs: seq<Bucket>, names: set<string>) returns (i: nat, c: string, y: string, d: string)
    requires DistinctNames(bs) && !Apart(bs, names)
    ensures Contested(bs, i, c, y, d) && y in names
  {
    var x;
    x, y :| x in StorageNames(bs) && y in names && BucketPriority(bs, x) < BucketPriority(bs, y) &&
      (Nests(x, y) || Nests(y, x));
    i :| i < |bs| && bs[i].HasStorage() && bs[i].name == x;
    RankIsPosition(bs, i);
    var k := bs[i].manifestKey + "k";
    if Nests(x, y) {
      c, d := y[|x| + 1..] + "/" + k, k;
      NestedNamesCollide(x, y, k);
      assert |c| > |d|;
    } else {
      c, d := k, x[|y| + 1..] + "/" + k;
      NestedNamesCollide(y, x, k);
      assert |d| > |c|;
    }
  }

  /** Second passes leave every consistent catalog with owners among these names alone, over any
      files, exactly when no storage bucket's name nests with a lower-ranked one of them. */
  lemma SecondPassIff(bs: seq<Bucket>, names: set<string>)
    requires DistinctNames(bs)
    ensures (forall s: State, a: Objects, p: seq<Step>, b: Objects, q: seq<Step> |
               && WellFormed(RankingOf(bs), s) && Consistent(s) && OwnersIn(s, names)
               && SameFiles(bs, a, b) && IsPass(bs, a, p) && IsPass(bs, b, q) ::
               Run(RankingOf(bs), Run(RankingOf(bs), s, p), q) == Run(RankingOf(bs), s, p))
            <==> Apart(bs, names)
  {
    if Apart(bs, names) {
      forall s: State, a: Objects, p: seq<Step>, b: Objects, q: seq<Step> |
          && WellFormed(RankingOf(bs), s) && Consistent(s) && OwnersIn(s, names)
          && SameFiles(bs, a, b) && IsPass(bs, a, p) && IsPass(bs, b, q)
        ensures Run(RankingOf(bs), Run(RankingOf(bs), s, p), q) == Run(RankingOf(bs), s, p)
      {
        SecondPassChangesNothing(bs, s, a, p, b, q, names);
      }
    } else {
      var i, c, y, d := NestedNamesAreContested(bs, names);
      var st := BothFiles(bs[i].name, c, d);
      BothStepsArePass(bs, i, c, y, d);
      SecondPassRestoresRoute(bs, i, c, y, d);
      assert SameFiles(bs, st, st);
    }
  }

  /** With no owner but storage buckets, the condition is that no storage name nests in another. */
  lemma ApartStorageIff(bs: seq<Bucket>)
    requires DistinctNames(bs)
    ensures Apart(bs, StorageNames(bs)) <==> Unnested(StorageNames(bs))
  {
    forall x, y | x in StorageNames(bs) && y in StorageNames(bs) && Nests(x, y)
      ensures BucketPriority(bs, x) < BucketPriority(bs, y) || BucketPriority(bs, y) < BucketPriority(bs, x)
    {
      assert |x| < |y|;
    }
  }

  /** Bucket "a" keeps "b/k" and "k", and "k" is on record under "a/b", which ranks lower or is not
      configured. The first pass leaves "b/k" without its route, the second gives it back. */
  lemma NestedNameUndoesSync(configured: bool)
    ensures var a, b := Bucket("a", "m", true, Hosted, "", 0, []), Bucket("a/b", "m", true, Hosted, "", 0, []);
            var bs := if configured then [a, b] else [a];
            var rk, p, s := RankingOf(bs), BothSteps("a", "b/k", "k"), OneRecord(RankingOf(bs), "a/b", "k");
            var t := Run(rk, s, p);
            && DistinctNames(bs) && IsPass(bs, BothFiles("a", "b/k", "k"), p)
            && WellFormed(rk, s) && Consistent(s)
            && Run(rk, t, p).byKey == t.byKey && Run(rk, t, p).byRoute != t.byRoute
  {
    var a, b := Bucket("a", "m", true, Hosted, "", 0, []), Bucket("a/b", "m", true, Hosted, "", 0, []);
    var bs := if configured then [a, b] else [a];
    assert |a.name| != |b.name|;
    assert "k"[0] != "m"[0] && |"b/k"| != |"m"|;
    assert Route("a", "b/k") == "/a/b/k" == Route("a/b", "k");
    assert Contested(bs, 0, "b/k", "a/b", "k");
    BothStepsArePass(bs, 0, "b/k", "a/b", "k");
    SecondPassRestoresRoute(bs, 0, "b/k", "a/b", "k");
  }

  // ---------------------------------------------------------------------------------------
  // Progress of a pass
  // ---------------------------------------------------------------------------------------

  /** A sync's local sets, and the registrations made. */
  datatype Progress = Progress(seen: set<string>, dups: set<string>, steps: seq<Step>)

  /** A bucket's turn registers each key it keeps that no earlier bucket claimed, once. */
  ghost predicate Claims(bs: seq<Bucket>, st: Objects, b: Bucket, seen: set<string>, added: seq<Step>) {
    && AllRegister(added) && OncePerKey(added)
    && (forall x <- added ::
          x.key !in seen && Keeps(b, st, x.key) && EntryOf(RankingOf(bs), x) == FreshEntry(bs, st, x.key, b.name))
    && (forall k: string | k !in seen && Keeps(b, st, k) :: Covers(added, k))
  }

  /** What visiting one bucket adds: its keys are seen, the ones seen before are duplicates, and
      the others are registered under it. */
  ghost predicate BucketSynced(bs: seq<Bucket>, st: Objects, b: Bucket, seen: set<string>, dups: set<string>,
      after: Progress) {
    && (forall k: string :: k in after.seen <==> k in seen || Keeps(b, st, k))
    && (forall k: string :: k in after.dups <==> k in dups || (k in seen && Keeps(b, st, k)))
    && Claims(bs, st, b, seen, after.steps)
  }

  /** Where a sync stands after the first n buckets. */
  ghost predicate SyncedUpTo(bs: seq<Bucket>, st: Objects, n: nat, p: Progress)
    requires n <= |bs|
  {
    && (forall k: string :: k in p.seen <==> FirstKeeper(bs, st, k) < n)
    && (forall k: string :: k in p.dups <==> KeptTwice(bs, st, k, n))
    && PassUpTo(bs, st, n, p.steps)
  }

  lemma KeptTwiceStep(bs: seq<Bucket>, st: Objects, key: string, i: nat)
    requires i < |bs|
    ensures KeptTwice(bs, st, key, i + 1) <==>
            KeptTwice(bs, st, key, i) || (FirstKeeper(bs, st, key) < i && Keeps(bs[i], st, key))
  {
  }

  /** A bucket claims the keys it is the first to keep. */
  lemma ClaimsAreFirst(bs: seq<Bucket>, st: Objects, i: nat, seen: set<string>, added: seq<Step>)
    requires i < |bs| && Claims(bs, st, bs[i], seen, added)
    requires forall k: string :: k in seen <==> FirstKeeper(bs, st, k) < i
    ensures forall x <- added ::
              FirstKeeper(bs, st, x.key) == i && Ideal(bs, st, x.key) == Some(EntryOf(RankingOf(bs), x))
    ensures forall k: string | FirstKeeper(bs, st, k) == i :: Covers(added, k)
  {
  }

  lemma PassStep(bs: seq<Bucket>, st: Objects, i: nat, seen: set<string>, steps: seq<Step>, added: seq<Step>)
    requires i < |bs| && PassUpTo(bs, st, i, steps) && Claims(bs, st, bs[i], seen, added)
    requires forall k: string :: k in seen <==> FirstKeeper(bs, st, k) < i
    ensures PassUpTo(bs, st, i + 1, steps + added)
  {
    ClaimsAreFirst(bs, st, i, seen, added);
    var all := steps + added;
    InOrderAppend(bs, st, steps, added, i);
    forall k: string | FirstKeeper(bs, st, k) < i + 1 ensures Covers(all, k) {
      assert Covers(if FirstKeeper(bs, st, k) < i then steps else added, k);
    }
    forall x, y | 0 <= x < y < |all| ensures all[x].key != all[y].key {
      assert x < |steps| ==> all[x] in steps;
      assert x >= |steps| ==> all[x] in added;
      assert y < |steps| ==> all[y] in steps;
      assert y >= |steps| ==> all[y] in added;
    }
  }

  lemma SyncedStep(bs: seq<Bucket>, st: Objects, i: nat, before: Progress, visit: Progress)
    requires i < |bs| && SyncedUpTo(bs, st, i, before)
    requires BucketSynced(bs, st, bs[i], before.seen, before.dups, visit)
    ensures SyncedUpTo(bs, st, i + 1, Progress(visit.seen, visit.dups, before.steps + visit.steps))
  {
    PassStep(bs, st, i, before.seen, before.steps, visit.steps);
    SetsStep(bs, st, i, before, visit);
  }

  lemma SetsStep(bs: seq<Bucket>, st: Objects, i: nat, before: Progress, visit: Progress)
    requires i < |bs| && SyncedUpTo(bs, st, i, before)
    requires BucketSynced(bs, st, bs[i], before.seen, before.dups, visit)
    ensures forall k: string :: k in visit.seen <==> FirstKeeper(bs, st, k) < i + 1
    ensures forall k: string :: k in visit.dups <==> KeptTwice(bs, st, k, i + 1)
  {
    forall k: string
      ensures k in visit.seen <==> FirstKeeper(bs, st, k) < i + 1
      ensures k in visit.dups <==> KeptTwice(bs, st, k, i + 1)
    {
      KeptTwiceStep(bs, st, k, i);
      assert k in before.seen <==> FirstKeeper(bs, st, k) < i;
    }
  }

  lemma NothingSynced(bs: seq<Bucket>, st: Objects)
    ensures SyncedUpTo(bs, st, 0, Progress({}, {}, [])) && IsPartialPass(bs, st, [])
  {
    SyncedSoFar(bs, st, 0, Progress({}, {}, []));
  }

  lemma SyncedSoFar(bs: seq<Bucket>, st: Objects, n: nat, p: Progress)
    requires n <= |bs| && SyncedUpTo(bs, st, n, p)
    ensures IsPartialPass(bs, st, p.steps)
  {
  }

  lemma SyncedAll(bs: seq<Bucket>, st: Objects, p: Progress)
    requires SyncedUpTo(bs, st, |bs|, p)
    ensures IsPass(bs, st, p.steps) && IsPartialPass(bs, st, p.steps) && p.dups == Duplicates(bs, st)
  {
    SyncedSoFar(bs, st, |bs|, p);
  }

  lemma {:induction false} InOrderUpToManifests(bs: seq<Bucket>, a: Objects, b: Objects, steps: seq<Step>)
    requires DistinctNames(bs) && SameFiles(bs, a, b) && AllRegister(steps) && InOrder(bs, a, steps)
    ensures InOrder(bs, b, steps)
  {
    if steps == [] {
    } else {
      var n := |steps| - 1;
      InOrderUpToManifests(bs, a, b, steps[..n]);
      forall x | x in steps ensures FirstKeeper(bs, a, x.key) == FirstKeeper(bs, b, x.key) {
        SameIdeal(bs, a, b, x.key);
      }
    }
  }

  lemma KeptTwiceUpToManifests(bs: seq<Bucket>, a: Objects, b: Objects, k: string, n: nat)
    requires DistinctNames(bs) && SameFiles(bs, a, b) && n <= |bs|
    ensures KeptTwice(bs, a, k, n) <==> KeptTwice(bs, b, k, n)
  {
    forall i: nat | i < |bs| ensures Keeps(bs[i], a, k) <==> Keeps(bs[i], b, k) {
      SameKeepers(bs, a, b, k, i);
    }
  }

  /** Manifests rewritten between two visits do not disturb a sync's progress. */
  lemma SyncedUpToManifests(bs: seq<Bucket>, a: Objects, b: Objects, n: nat, p: Progress)
    requires DistinctNames(bs) && SameFiles(bs, a, b) && n <= |bs| && SyncedUpTo(bs, a, n, p)
    ensures SyncedUpTo(bs, b, n, p)
  {
    forall k: string
      ensures FirstKeeper(bs, a, k) == FirstKeeper(bs, b, k) && Ideal(bs, a, k) == Ideal(bs, b, k)
      ensures KeptTwice(bs, a, k, n) <==> KeptTwice(bs, b, k, n)
    {
      SameIdeal(bs, a, b, k);
      KeptTwiceUpToManifests(bs, a, b, k, n);
    }
    InOrderUpToManifests(bs, a, b, p.steps);
  }

  /** A visit, as one step of a sync whose earlier visits may have seen other manifests, settles
      exactly the keys its bucket is the first to keep. */
  lemma VisitSettles(bs: seq<Bucket>, earlier: Objects, st: Objects, i: nat, before: Progress, visit: Progress,
      t: State)
    requires DistinctNames(bs) && SameFiles(bs, earlier, st) && i < |bs| && SyncedUpTo(bs, earlier, i, before)
    requires BucketSynced(bs, st, bs[i], before.seen, before.dups, visit)
    ensures Settles(bs, st, i, t, Run(RankingOf(bs), t, visit.steps))
    ensures SyncedUpTo(bs, st, i + 1, Progress(visit.seen, visit.dups, before.steps + visit.steps))
  {
    SyncedUpToManifests(bs, earlier, st, i, before);
    SyncedStep(bs, st, i, before, visit);
    ClaimsAreFirst(bs, st, i, before.seen, visit.steps);
    forall k: string
      ensures Lookup(Run(RankingOf(bs), t, visit.steps), k) ==
              if FirstKeeper(bs, st, k) == i then Synced(bs, t, st, k) else Lookup(t, k)
    {
      RegistersLookup(RankingOf(bs), t, visit.steps, k);
      if FirstKeeper(bs, st, k) == i {
        assert Covers(visit.steps, k);
        var x :| x in visit.steps && x.key == k;
      }
    }
  }

  // ---------------------------------------------------------------------------------------
  // Progress through one listing
  // ---------------------------------------------------------------------------------------

  /** A non-manifest key among these listed objects. */
  ghost predicate Visited(bucket: Bucket, metas: seq<Meta>, key: string) {
    key != bucket.manifestKey && exists m <- metas :: m.key == key
  }

  /** BucketSynced for the part of a bucket's listing visited so far. */
  ghost predicate ListingSynced(bs: seq<Bucket>, st: Objects, b: Bucket, metas: seq<Meta>, seen: set<string>,
      dups: set<string>, after: Progress) {
    && (forall k: string :: k in after.seen <==> k in seen || Visited(b, metas, k))
    && (forall k: string :: k in after.dups <==> k in dups || (k in seen && Visited(b, metas, k)))
    && ListingClaims(bs, st, b, metas, seen, after.steps)
  }

  ghost predicate ListingClaims(bs: seq<Bucket>, st: Objects, b: Bucket, metas: seq<Meta>, seen: set<string>,
      added: seq<Step>) {
    && AllRegister(added) && OncePerKey(added)
    && (forall x <- added ::
          && x.key !in seen && Visited(b, metas, x.key) && (b.name, x.key) in st
          && EntryOf(RankingOf(bs), x) == FreshEntry(bs, st, x.key, b.name))
    && (forall k: string | k !in seen && Visited(b, metas, k) :: Covers(added, k))
  }

  /** What SyncRegistry does with one listed object. */
  ghost predicate ObjectSynced(b: Bucket, obj: Meta, before: Progress, after: Progress) {
    if obj.key == b.manifestKey then after == before
    else if obj.key in before.seen then
      after.seen == before.seen && after.dups == before.dups + {obj.key} && after.steps == before.steps
    else
      && after.seen == before.seen + {obj.key} && after.dups == before.dups
      && after.steps == before.steps + [Register(obj.key, b.name, obj.size, obj.lastModified)]
  }

  lemma VisitedMore(b: Bucket, metas: seq<Meta>, j: nat, k: string)
    requires j < |metas| && forall x, y | 0 <= x < y < |metas| :: metas[x].key != metas[y].key
    ensures Visited(b, metas[..j + 1], k) <==>
            Visited(b, metas[..j], k) || (k == metas[j].key && k != b.manifestKey)
    ensures k == metas[j].key ==> !Visited(b, metas[..j], k)
  {
    assert metas[..j + 1] == metas[..j] + [metas[j]];
  }

  lemma ListingStep(bs: seq<Bucket>, st: Objects, b: Bucket, metas: seq<Meta>, j: nat, seen: set<string>,
      dups: set<string>, mid: Progress, after: Progress)
    requires j < |metas| && Lists(st, b.name, metas)
    requires ListingSynced(bs, st, b, metas[..j], seen, dups, mid) && ObjectSynced(b, metas[j], mid, after)
    ensures ListingSynced(bs, st, b, metas[..j + 1], seen, dups, after)
  {
    var obj := metas[j];
    forall k: string
      ensures Visited(b, metas[..j + 1], k) <==> Visited(b, metas[..j], k) || (k == obj.key && k != b.manifestKey)
      ensures k == obj.key ==> !Visited(b, metas[..j], k)
    {
      VisitedMore(b, metas, j, k);
    }
    ClaimStep(bs, st, b, metas, j, seen, mid, after);
  }

  lemma ClaimStep(bs: seq<Bucket>, st: Objects, b: Bucket, metas: seq<Meta>, j: nat, seen: set<string>,
      mid: Progress, after: Progress)
    requires j < |metas| && Lists(st, b.name, metas) && ObjectSynced(b, metas[j], mid, after)
    requires ListingClaims(bs, st, b, metas[..j], seen, mid.steps)
    requires forall k: string :: k in mid.seen <==> k in seen || Visited(b, metas[..j], k)
    ensures ListingClaims(bs, st, b, metas[..j + 1], seen, after.steps)
  {
    var obj := metas[j];
    assert obj in metas && Head(st, b.name, obj.key) == Some(obj);
    forall k: string
      ensures Visited(b, metas[..j + 1], k) <==> Visited(b, metas[..j], k) || (k == obj.key && k != b.manifestKey)
      ensures k == obj.key ==> !Visited(b, metas[..j], k)
      ensures Covers(mid.steps, k) ==> Covers(after.steps, k)
    {
      VisitedMore(b, metas, j, k);
    }
    if after.steps != mid.steps {
      assert after.steps[|mid.steps|] in after.steps;
      assert forall x <- mid.steps :: x.key != obj.key;
    }
  }

  lemma ListingIsBucket(bs: seq<Bucket>, st: Objects, b: Bucket, metas: seq<Meta>, seen: set<string>,
      dups: set<string>, after: Progress)
    requires b.HasStorage() && Lists(st, b.name, metas) && ListingSynced(bs, st, b, metas, seen, dups, after)
    ensures BucketSynced(bs, st, b, seen, dups, after)
  {
    forall k: string ensures Visited(b, metas, k) <==> Keeps(b, st, k) {
      if Keeps(b, st, k) {
        assert MetaOf(st, b.name, k) in metas;
      }
    }
  }
}
