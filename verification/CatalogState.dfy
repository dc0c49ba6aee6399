/** The file registry as a value: which bucket owns each key, which route serves it, and the
    atomic steps that change it. Every catalog method takes its mutex once, so one method call
    is one step and a run of the program is a sequence of steps. */
module CatalogState {
  import opened Outcomes
  import opened Strings
  import opened GenericFormat
  import opened Sequences

  datatype Entry = Entry(
    key: string, bucket: string, bucketType: string, route: string, size: int, lastModified: string)

  /** The caller-supplied bucket ranking (lower wins) and visibility class. */
  datatype Ranking = Ranking(priority: string -> int, bucketType: string -> string)

  datatype State = State(byKey: map<string, Entry>, byRoute: map<string, string>)

  const EMPTY := State(map[], map[])

  datatype Step =
    | Register(key: string, bucket: string, size: int, lastModified: string)
    | Set(key: string, bucket: string, size: int, lastModified: string)
    | Remove(key: string)
    | Clear

  function MakeEntry(rk: Ranking, key: string, bucket: string, size: int, lastModified: string): Entry {
    Entry(key, bucket, rk.bucketType(bucket), Route(bucket, key), size, lastModified)
  }

  function Lookup(s: State, key: string): Option<Entry> {
    if key in s.byKey then Some(s.byKey[key]) else None
  }

  /** What the route index yields: a dangling index entry gives Go's zero Entry. */
  function LookupByRoute(s: State, route: string): Option<Entry> {
    if route !in s.byRoute then None
    else if s.byRoute[route] in s.byKey then Some(s.byKey[s.byRoute[route]])
    else Some(Entry("", "", "", "", 0, ""))
  }

  /** The key already belongs to a bucket that ranks strictly above this one. */
  predicate Outranked(rk: Ranking, owner: Option<Entry>, bucket: string) {
    owner.Some? && rk.priority(owner.value.bucket) < rk.priority(bucket)
  }

  predicate Writes(rk: Ranking, s: State, step: Step) {
    step.Set? || (step.Register? && !Outranked(rk, Lookup(s, step.key), step.bucket))
  }

  function EntryOf(rk: Ranking, step: Step): Entry
    requires step.Register? || step.Set?
  {
    MakeEntry(rk, step.key, step.bucket, step.size, step.lastModified)
  }

  /** The route index without the route of a key's present entry. */
  function Unindexed(s: State, key: string): map<string, string> {
    if key in s.byKey then s.byRoute - {s.byKey[key].route} else s.byRoute
  }

  function Apply(rk: Ranking, s: State, step: Step): State {
    if Writes(rk, s, step) then
      var e := EntryOf(rk, step);
      State(s.byKey[step.key := e], Unindexed(s, step.key)[e.route := step.key])
    else
      match step
      case Remove(key) => State(s.byKey - {key}, Unindexed(s, key))
      case Clear => EMPTY
      case _ => s
  }

  function Run(rk: Ranking, s: State, steps: seq<Step>): State {
    if steps == [] then s
    else Apply(rk, Run(rk, s, steps[..|steps| - 1]), steps[|steps| - 1])
  }

  lemma {:induction false} RunConcat(rk: Ranking, s: State, a: seq<Step>, b: seq<Step>)
    ensures Run(rk, s, a + b) == Run(rk, Run(rk, s, a), b)
  {
    if b == [] {
      assert a + b == a;
    } else {
      var n := |b| - 1;
      assert (a + b)[..|a + b| - 1] == a + b[..n];
      RunConcat(rk, s, a, b[..n]);
    }
  }

  lemma RunAfterClear(rk: Ranking, before: seq<Step>, steps: seq<Step>)
    ensures Run(rk, EMPTY, before + [Clear] + steps) == Run(rk, EMPTY, steps)
  {
    var cleared := before + [Clear];
    assert cleared[..|cleared| - 1] == before;
    RunConcat(rk, EMPTY, cleared, steps);
  }

  // ---------------------------------------------------------------------------------------
  // The two maps stay inverse to each other
  // ---------------------------------------------------------------------------------------

  /** Every entry is what the ranking makes of its key, bucket, size and timestamp. */
  ghost predicate WellFormed(rk: Ranking, s: State) {
    forall k <- s.byKey :: var e := s.byKey[k]; e == MakeEntry(rk, k, e.bucket, e.size, e.lastModified)
  }

  /** The route index is the exact inverse of the entries' routes. */
  ghost predicate Consistent(s: State) {
    && (forall k <- s.byKey :: s.byKey[k].route in s.byRoute && s.byRoute[s.byKey[k].route] == k)
    && (forall r <- s.byRoute :: s.byRoute[r] in s.byKey && s.byKey[s.byRoute[r]].route == r)
  }

  /** In a consistent catalog a route yields exactly the entry that carries it. */
  lemma LookupByRouteIff(rk: Ranking, s: State, route: string, e: Entry)
    requires Consistent(s) && WellFormed(rk, s)
    ensures LookupByRoute(s, route) == Some(e) <==> Lookup(s, e.key) == Some(e) && e.route == route
  {
  }

  lemma {:induction false} RunWellFormed(rk: Ranking, s: State, steps: seq<Step>)
    requires WellFormed(rk, s)
    ensures WellFormed(rk, Run(rk, s, steps))
  {
    if steps == [] {
    } else {
      RunWellFormed(rk, s, steps[..|steps| - 1]);
    }
  }

  /** The step writes a route that already serves another key. */
  predicate Clashes(rk: Ranking, s: State, step: Step) {
    && Writes(rk, s, step)
    && var r := Route(step.bucket, step.key); r in s.byRoute && s.byRoute[r] != step.key
  }

  lemma UnclashedWrite(rk: Ranking, s: State, step: Step)
    requires WellFormed(rk, s) && Consistent(s) && Writes(rk, s, step) && !Clashes(rk, s, step)
    ensures Consistent(Apply(rk, s, step))
  {
    var t, r := Apply(rk, s, step), Route(step.bucket, step.key);
    assert t.byRoute == Unindexed(s, step.key)[r := step.key];
    forall k | k in t.byKey ensures t.byKey[k].route in t.byRoute && t.byRoute[t.byKey[k].route] == k {
      assert k != step.key ==> t.byKey[k] == s.byKey[k];
    }
    forall x | x in t.byRoute ensures t.byRoute[x] in t.byKey && t.byKey[t.byRoute[x]].route == x {
      assert x != r ==> x in s.byRoute && t.byRoute[x] == s.byRoute[x];
    }
  }

  lemma ClashingWrite(rk: Ranking, s: State, step: Step)
    requires Consistent(s) && Clashes(rk, s, step)
    ensures !Consistent(Apply(rk, s, step))
  {
    var t, r := Apply(rk, s, step), Route(step.bucket, step.key);
    var other := s.byRoute[r];
    assert t.byKey[other].route == r && t.byRoute[r] == step.key;
  }

  /** A step keeps the maps inverse exactly when it does not clash. */
  lemma StepConsistentIff(rk: Ranking, s: State, step: Step)
    requires WellFormed(rk, s) && Consistent(s)
    ensures Consistent(Apply(rk, s, step)) <==> !Clashes(rk, s, step)
  {
    if Clashes(rk, s, step) {
      ClashingWrite(rk, s, step);
    } else if Writes(rk, s, step) {
      UnclashedWrite(rk, s, step);
    }
  }

  predicate Over(steps: seq<Step>, names: set<string>) {
    forall st <- steps :: st.Register? || st.Set? ==> st.bucket in names
  }

  /** No bucket name is a leading directory of another. Names without a slash always qualify. */
  ghost predicate Unnested(names: set<string>) {
    forall a, b | a in names && b in names :: !Nests(a, b)
  }

  lemma SlashFreeNamesAreUnnested(names: set<string>)
    requires forall n <- names :: '/' !in n
    ensures Unnested(names)
  {
    forall a, b | a in names && b in names ensures !Nests(a, b) {
      assert (a + "/")[|a|] == '/';
    }
  }

  function Owners(s: State): set<string> {
    set k | k in s.byKey :: s.byKey[k].bucket
  }

  ghost predicate OwnersIn(s: State, names: set<string>) {
    forall k <- s.byKey :: s.byKey[k].bucket in names
  }

  lemma {:induction false} RunConsistent(rk: Ranking, s: State, steps: seq<Step>, names: set<string>)
    requires WellFormed(rk, s) && Consistent(s) && OwnersIn(s, names)
    requires Over(steps, names) && Unnested(names)
    ensures var t := Run(rk, s, steps); WellFormed(rk, t) && Consistent(t) && OwnersIn(t, names)
  {
    if steps == [] {
    } else {
      var init, step := steps[..|steps| - 1], steps[|steps| - 1];
      RunConsistent(rk, s, init, names);
      var t := Run(rk, s, init);
      if Clashes(rk, t, step) {
        var other := t.byRoute[Route(step.bucket, step.key)];
        RouteCollision(t.byKey[other].bucket, other, step.bucket, step.key);
      }
      StepConsistentIff(rk, t, step);
    }
  }

  /** Every run over these bucket names keeps the maps inverse exactly when no name nests in another. */
  lemma RunsStayConsistentIff(rk: Ranking, names: set<string>)
    ensures (forall steps: seq<Step> | Over(steps, names) :: Consistent(Run(rk, EMPTY, steps))) <==> Unnested(names)
  {
    if Unnested(names) {
      forall steps: seq<Step> | Over(steps, names) ensures Consistent(Run(rk, EMPTY, steps)) {
        RunConsistent(rk, EMPTY, steps, names);
      }
    } else {
      var outer, inner :| outer in names && inner in names && Nests(outer, inner);
      var steps := NestedNamesBreakRun(rk, outer, inner);
      assert Over(steps, names);
    }
  }

  lemma RunTwo(rk: Ranking, s: State, x: Step, y: Step)
    ensures Run(rk, s, [x, y]) == Apply(rk, Apply(rk, s, x), y)
  {
    assert [x, y][..1] == [x] && [x][..0] == [];
    assert Run(rk, s, [x]) == Apply(rk, s, x);
  }

  lemma NestedNamesBreakRun(rk: Ranking, outer: string, inner: string) returns (steps: seq<Step>)
    requires Nests(outer, inner)
    ensures Over(steps, {outer, inner}) && !Consistent(Run(rk, EMPTY, steps))
  {
    var key := inner[|outer| + 1..] + "/" + "k";
    NestedNamesCollide(outer, inner, "k");
    var first, second := Set(key, outer, 0, ""), Set("k", inner, 0, "");
    assert |key| > |"k"|;
    StepConsistentIff(rk, EMPTY, first);
    StepConsistentIff(rk, Apply(rk, EMPTY, first), second);
    RunTwo(rk, EMPTY, first, second);
    steps := [first, second];
  }

  /** Buckets "a" and "a/b": the second registration takes over the first one's route. */
  lemma NestedBucketsBreakRoutes(rk: Ranking)
    ensures var s := Run(rk, EMPTY, [Set("b/k", "a", 0, ""), Set("k", "a/b", 0, "")]);
            Lookup(s, "b/k").Some? && LookupByRoute(s, s.byKey["b/k"].route) != Lookup(s, "b/k")
  {
    var first, second := Set("b/k", "a", 0, ""), Set("k", "a/b", 0, "");
    RunTwo(rk, EMPTY, first, second);
    assert Route("a", "b/k") == "/a/b/k" == Route("a/b", "k");
  }

  /** The goroutines' step lists, merged in some order that respects each of them. */
  ghost predicate Interleaves(merged: seq<Step>, threads: seq<seq<Step>>)
    decreases |merged|
  {
    if merged == [] then forall t <- threads :: t == []
    else
      exists i | 0 <= i < |threads| ::
        && threads[i] != [] && threads[i][|threads[i]| - 1] == merged[|merged| - 1]
        && Interleaves(merged[..|merged| - 1], threads[i := threads[i][..|threads[i]| - 1]])
  }

  lemma {:induction false} InterleavingIsOver(merged: seq<Step>, threads: seq<seq<Step>>, names: set<string>)
    requires Interleaves(merged, threads) && forall t <- threads :: Over(t, names)
    ensures Over(merged, names)
    decreases |merged|
  {
    if merged == [] {
    } else {
      var n := |merged| - 1;
      var i :| && 0 <= i < |threads| && threads[i] != [] && threads[i][|threads[i]| - 1] == merged[n]
               && Interleaves(merged[..n], threads[i := threads[i][..|threads[i]| - 1]]);
      var rest := threads[i := threads[i][..|threads[i]| - 1]];
      assert threads[i] in threads && Over(threads[i], names);
      forall t | t in rest ensures Over(t, names) {
        if t !in threads {
          assert t == threads[i][..|threads[i]| - 1];
          assert forall st <- t :: st in threads[i];
        }
      }
      InterleavingIsOver(merged[..n], rest, names);
      assert merged == merged[..n] + [merged[n]];
      assert threads[i] in threads && merged[n] in threads[i];
    }
  }

  /** However any number of goroutines interleave, no route lookup yields a missing or mismatched entry. */
  lemma InterleavedLookupsAreSound(
      rk: Ranking, merged: seq<Step>, threads: seq<seq<Step>>, names: set<string>, route: string, e: Entry)
    requires Interleaves(merged, threads) && Unnested(names) && forall t <- threads :: Over(t, names)
    ensures var s := Run(rk, EMPTY, merged);
            LookupByRoute(s, route) == Some(e) <==> Lookup(s, e.key) == Some(e) && e.route == route
  {
    InterleavingIsOver(merged, threads, names);
    RunConsistent(rk, EMPTY, merged, names);
    LookupByRouteIff(rk, Run(rk, EMPTY, merged), route, e);
  }

  /** A consistent catalog's route index is determined by its entries. */
  lemma EntriesDetermineRoutes(s: State, t: State)
    requires Consistent(s) && Consistent(t) && s.byKey == t.byKey
    ensures s == t
  {
  }

  // ---------------------------------------------------------------------------------------
  // Priority-checked writes
  // ---------------------------------------------------------------------------------------

  predicate AllRegister(steps: seq<Step>) {
    forall st <- steps :: st.Register?
  }

  /** Who owns a key after one registration attempt. */
  function Admit(rk: Ranking, owner: Option<Entry>, e: Entry): Option<Entry> {
    if Outranked(rk, owner, e.bucket) then owner else Some(e)
  }

  lemma RegisterAdmits(rk: Ranking, s: State, step: Step, k: string)
    requires step.Register?
    ensures Lookup(Apply(rk, s, step), k) ==
            if k == step.key then Admit(rk, Lookup(s, k), EntryOf(rk, step)) else Lookup(s, k)
  {
  }

  /** No hijack: registrations never lose a key and never hand one to a lower-ranked bucket. */
  lemma {:induction false} RegistersNeverDemote(rk: Ranking, s: State, steps: seq<Step>, k: string)
    requires AllRegister(steps) && k in s.byKey
    ensures var t := Run(rk, s, steps);
            k in t.byKey && rk.priority(t.byKey[k].bucket) <= rk.priority(s.byKey[k].bucket)
  {
    if steps == [] {
    } else {
      var n := |steps| - 1;
      RegistersNeverDemote(rk, s, steps[..n], k);
      RegisterAdmits(rk, Run(rk, s, steps[..n]), steps[n], k);
    }
  }

  /** ... and a key whose owner has not changed keeps its route indexed. */
  lemma NoHijack(rk: Ranking, s: State, steps: seq<Step>, names: set<string>, k: string)
    requires AllRegister(steps) && k in s.byKey
    requires WellFormed(rk, s) && Consistent(s) && OwnersIn(s, names) && Over(steps, names) && Unnested(names)
    ensures var t := Run(rk, s, steps);
            && k in t.byKey && rk.priority(t.byKey[k].bucket) <= rk.priority(s.byKey[k].bucket)
            && (t.byKey[k].bucket == s.byKey[k].bucket ==> LookupByRoute(t, s.byKey[k].route) == Some(t.byKey[k]))
  {
    RegistersNeverDemote(rk, s, steps, k);
    RunConsistent(rk, s, steps, names);
  }

  /** Since an earlier history, only priority-checked registrations under known names were made. */
  ghost predicate OnlyRegisters(before: seq<Step>, now: seq<Step>, names: set<string>) {
    && before <= now
    && forall i | |before| <= i < |now| :: now[i].Register? && now[i].bucket in names
  }

  lemma RegistersSince(before: seq<Step>, now: seq<Step>, names: set<string>)
    requires OnlyRegisters(before, now, names)
    ensures AllRegister(now[|before|..]) && Over(now[|before|..], names)
    ensures now == before + now[|before|..]
  {
  }

  ghost predicate Best(rk: Ranking, steps: seq<Step>, i: nat)
    requires AllRegister(steps)
  {
    && i < |steps|
    && forall j | 0 <= j < |steps| && steps[j].key == steps[i].key ::
         rk.priority(steps[i].bucket) <= rk.priority(steps[j].bucket)
  }

  /** Record i is the last of the best-ranked records for its key. */
  ghost predicate LastBest(rk: Ranking, steps: seq<Step>, i: nat)
    requires AllRegister(steps)
  {
    && Best(rk, steps, i)
    && forall j | i < j < |steps| && steps[j].key == steps[i].key ::
         rk.priority(steps[i].bucket) < rk.priority(steps[j].bucket)
  }

  lemma LastBestKept(rk: Ranking, steps: seq<Step>, x: Step, i: nat)
    requires AllRegister(steps) && LastBest(rk, steps, i) && x.Register?
    requires x.key == steps[i].key ==> rk.priority(steps[i].bucket) < rk.priority(x.bucket)
    ensures AllRegister(steps + [x]) && LastBest(rk, steps + [x], i)
  {
  }

  lemma LastBestNew(rk: Ranking, steps: seq<Step>, x: Step)
    requires AllRegister(steps) && x.Register?
    requires forall j | 0 <= j < |steps| && steps[j].key == x.key ::
               rk.priority(x.bucket) <= rk.priority(steps[j].bucket)
    ensures AllRegister(steps + [x]) && LastBest(rk, steps + [x], |steps|)
  {
  }

  /** Loading records leaves each key with the last record among those of best rank. */
  lemma {:induction false} LoadedOwner(rk: Ranking, steps: seq<Step>, k: string)
    requires AllRegister(steps)
    ensures match Lookup(Run(rk, EMPTY, steps), k)
            case None => forall st <- steps :: st.key != k
            case Some(e) => exists i: nat :: LastBest(rk, steps, i) && steps[i].key == k && e == EntryOf(rk, steps[i])
  {
    if steps == [] {
    } else {
      var n := |steps| - 1;
      var init := steps[..n];
      LoadedOwner(rk, init, k);
      var owner := Lookup(Run(rk, EMPTY, init), k);
      RegisterAdmits(rk, Run(rk, EMPTY, init), steps[n], k);
      assert steps == init + [steps[n]];
      if owner.Some? {
        var i: nat :| LastBest(rk, init, i) && init[i].key == k && owner.value == EntryOf(rk, init[i]);
        if steps[n].key != k || Outranked(rk, owner, steps[n].bucket) {
          LastBestKept(rk, init, steps[n], i);
        } else {
          LastBestNew(rk, init, steps[n]);
        }
      } else if steps[n].key == k {
        LastBestNew(rk, init, steps[n]);
      }
    }
  }

  lemma LastBestOwns(rk: Ranking, steps: seq<Step>, i: nat)
    requires AllRegister(steps) && LastBest(rk, steps, i)
    ensures Lookup(Run(rk, EMPTY, steps), steps[i].key) == Some(EntryOf(rk, steps[i]))
  {
    LoadedOwner(rk, steps, steps[i].key);
    assert steps[i] in steps;
  }

  /** All best-ranked records of a key say the same thing. */
  ghost predicate TieFree(rk: Ranking, steps: seq<Step>)
    requires AllRegister(steps)
  {
    forall i: nat, j: nat | Best(rk, steps, i) && Best(rk, steps, j) &&
        steps[i].key == steps[j].key :: steps[i] == steps[j]
  }

  /** Distinct ranks for a key's records are enough: no two buckets present tie and no bucket repeats a key. */
  lemma DistinctRanksAreTieFree(rk: Ranking, steps: seq<Step>)
    requires AllRegister(steps)
    requires forall i, j | 0 <= i < j < |steps| && steps[i].key == steps[j].key ::
               rk.priority(steps[i].bucket) != rk.priority(steps[j].bucket)
    ensures TieFree(rk, steps)
  {
  }

  lemma PermutationKeepsRegisters(steps: seq<Step>, other: seq<Step>)
    requires AllRegister(steps) && multiset(other) == multiset(steps)
    ensures AllRegister(other)
  {
    SameMembers(steps, other);
  }

  lemma PermutedOwner(rk: Ranking, steps: seq<Step>, other: seq<Step>, k: string)
    requires AllRegister(steps) && TieFree(rk, steps)
    requires multiset(other) == multiset(steps)
    ensures Lookup(Run(rk, EMPTY, other), k) == Lookup(Run(rk, EMPTY, steps), k)
  {
    PermutationKeepsRegisters(steps, other);
    SameMembers(steps, other);
    LoadedOwner(rk, steps, k);
    LoadedOwner(rk, other, k);
    var a, b := Lookup(Run(rk, EMPTY, steps), k), Lookup(Run(rk, EMPTY, other), k);
    if a.Some? {
      var i: nat :| LastBest(rk, steps, i) && steps[i].key == k && a.value == EntryOf(rk, steps[i]);
      assert steps[i] in other;
      var j: nat :| LastBest(rk, other, j) && other[j].key == k && b.value == EntryOf(rk, other[j]);
      assert other[j] in steps;
      var j': nat :| j' < |steps| && steps[j'] == other[j];
      assert Best(rk, steps, j') by {
        forall m | 0 <= m < |steps| && steps[m].key == k
            ensures rk.priority(other[j].bucket) <= rk.priority(steps[m].bucket) {
          assert steps[m] in other;
        }
      }
    }
  }

  /** A best-ranked record wins if it happens to be applied last. */
  lemma MovedLastOwns(rk: Ranking, steps: seq<Step>, i: nat)
    requires AllRegister(steps) && Best(rk, steps, i)
    ensures multiset(MovedLast(steps, i)) == multiset(steps)
    ensures Lookup(Run(rk, EMPTY, MovedLast(steps, i)), steps[i].key) == Some(EntryOf(rk, steps[i]))
  {
    var m := MovedLast(steps, i);
    MovedLastPermutes(steps, i);
    PermutationKeepsRegisters(steps, m);
    SameMembers(steps, m);
    assert Best(rk, m, |m| - 1) by {
      forall j | 0 <= j < |m| && m[j].key == steps[i].key
          ensures rk.priority(steps[i].bucket) <= rk.priority(m[j].bucket) {
        assert m[j] in steps;
      }
    }
    LastBestOwns(rk, m, |m| - 1);
  }

  lemma TiesMakeOrderMatter(rk: Ranking, steps: seq<Step>)
    requires AllRegister(steps) && !TieFree(rk, steps)
    ensures exists a: seq<Step>, b: seq<Step> ::
              && multiset(a) == multiset(b) == multiset(steps)
              && Run(rk, EMPTY, a).byKey != Run(rk, EMPTY, b).byKey
  {
    var i: nat, j: nat :| Best(rk, steps, i) && Best(rk, steps, j) && steps[i].key == steps[j].key &&
        steps[i] != steps[j];
    MovedLastOwns(rk, steps, i);
    MovedLastOwns(rk, steps, j);
    var a, b := MovedLast(steps, i), MovedLast(steps, j);
    OwnersDiffer(rk, Run(rk, EMPTY, a), Run(rk, EMPTY, b), steps[i], steps[j]);
  }

  lemma TieFreeOrderIsIrrelevant(rk: Ranking, steps: seq<Step>, other: seq<Step>)
    requires AllRegister(steps) && TieFree(rk, steps) && multiset(other) == multiset(steps)
    ensures Run(rk, EMPTY, other).byKey == Run(rk, EMPTY, steps).byKey
  {
    forall k ensures Lookup(Run(rk, EMPTY, other), k) == Lookup(Run(rk, EMPTY, steps), k) {
      PermutedOwner(rk, steps, other, k);
    }
    SameLookups(Run(rk, EMPTY, other), Run(rk, EMPTY, steps));
  }

  /** Two records of one key under buckets that tie: the later record wins. */
  lemma TiedBucketsDependOnOrder(rk: Ranking, key: string, x: string, y: string)
    requires x != y && rk.priority(x) == rk.priority(y)
    ensures var a, b := Register(key, x, 0, ""), Register(key, y, 0, "");
            Run(rk, EMPTY, [a, b]).byKey != Run(rk, EMPTY, [b, a]).byKey
  {
    var a, b := Register(key, x, 0, ""), Register(key, y, 0, "");
    LastBestOwns(rk, [a, b], 1);
    LastBestOwns(rk, [b, a], 1);
  }

  /** The order of records is irrelevant exactly when the best-ranked records of each key agree. */
  lemma OrderIrrelevantIff(rk: Ranking, steps: seq<Step>)
    requires AllRegister(steps)
    ensures (forall other: seq<Step> | multiset(other) == multiset(steps) ::
               Run(rk, EMPTY, other).byKey == Run(rk, EMPTY, steps).byKey) <==> TieFree(rk, steps)
  {
    if TieFree(rk, steps) {
      forall other: seq<Step> | multiset(other) == multiset(steps)
        ensures Run(rk, EMPTY, other).byKey == Run(rk, EMPTY, steps).byKey
      {
        TieFreeOrderIsIrrelevant(rk, steps, other);
      }
    } else {
      TiesMakeOrderMatter(rk, steps);
    }
  }

  lemma SameLookups(s: State, t: State)
    requires forall k: string :: Lookup(s, k) == Lookup(t, k)
    ensures s.byKey == t.byKey
  {
    forall k ensures k in s.byKey <==> k in t.byKey { assert Lookup(s, k) == Lookup(t, k); }
    forall k | k in s.byKey ensures s.byKey[k] == t.byKey[k] { assert Lookup(s, k) == Lookup(t, k); }
  }

  // ---------------------------------------------------------------------------------------
  // Manifests
  // ---------------------------------------------------------------------------------------

  /** Stored bytes: their number, and the file list decodeManifestFiles reads from them, if any. */
  datatype Body = Body(length: nat, files: Option<seq<Entry>>)

  datatype BucketManifest = BucketManifest(bucket: string, content: Body)

  /** The registrations LoadManifests performs for one file list. */
  function FileSteps(bucket: string, files: seq<Entry>): (steps: seq<Step>)
    ensures AllRegister(steps)
  {
    if files == [] then []
    else
      var item := files[|files| - 1];
      FileSteps(bucket, files[..|files| - 1]) +
      if item.key == "" then []
      else [Register(item.key, if item.bucket == "" then bucket else item.bucket, item.size, item.lastModified)]
  }

  /** Empty or undecodable content contributes nothing. */
  function ManifestSteps(m: BucketManifest): (steps: seq<Step>)
    ensures AllRegister(steps)
  {
    if m.content.length == 0 || m.content.files.None? then [] else FileSteps(m.bucket, m.content.files.value)
  }

  function RecordSteps(manifests: seq<BucketManifest>): (steps: seq<Step>)
    ensures AllRegister(steps)
  {
    if manifests == [] then []
    else RecordSteps(manifests[..|manifests| - 1]) + ManifestSteps(manifests[|manifests| - 1])
  }

  lemma RecordStepsGrow(before: seq<Step>, ms: seq<BucketManifest>, i: nat)
    requires i < |ms|
    ensures before + RecordSteps(ms[..i]) + ManifestSteps(ms[i]) == before + RecordSteps(ms[..i + 1])
  {
    assert ms[..i + 1][..i] == ms[..i];
  }

  /** The catalog LoadManifests builds from scratch. */
  function Loaded(rk: Ranking, manifests: seq<BucketManifest>): State {
    Run(rk, EMPTY, RecordSteps(manifests))
  }

  // ---------------------------------------------------------------------------------------
  // The order of manifests
  // ---------------------------------------------------------------------------------------

  lemma {:induction false} RecordStepsMember(ms: seq<BucketManifest>, st: Step)
    ensures st in RecordSteps(ms) <==> exists m <- ms :: st in ManifestSteps(m)
  {
    if ms == [] {
    } else {
      var n := |ms| - 1;
      RecordStepsMember(ms[..n], st);
      assert ms == ms[..n] + [ms[n]];
    }
  }

  lemma PermutedManifestsRecordTheSame(ms: seq<BucketManifest>, o: seq<BucketManifest>, st: Step)
    requires multiset(o) == multiset(ms)
    ensures st in RecordSteps(o) <==> st in RecordSteps(ms)
  {
    SameMembers(o, ms);
    RecordStepsMember(o, st);
    RecordStepsMember(ms, st);
  }

  /** Record i of a manifest is its last best-ranked one for a key, and no manifest has a better one. */
  ghost predicate Contends(rk: Ranking, ms: seq<BucketManifest>, m: BucketManifest, i: nat) {
    && m in ms && LastBest(rk, ManifestSteps(m), i)
    && forall st <- RecordSteps(ms) | st.key == ManifestSteps(m)[i].key ::
         rk.priority(ManifestSteps(m)[i].bucket) <= rk.priority(st.bucket)
  }

  /** All manifests that hold a best-ranked record of a key have the same last one. */
  ghost predicate ManifestsAgree(rk: Ranking, ms: seq<BucketManifest>) {
    forall m: BucketManifest, i: nat, m2: BucketManifest, j: nat |
        Contends(rk, ms, m, i) && Contends(rk, ms, m2, j) && ManifestSteps(m)[i].key == ManifestSteps(m2)[j].key ::
      ManifestSteps(m)[i] == ManifestSteps(m2)[j]
  }

  lemma ContendsPermutes(rk: Ranking, ms: seq<BucketManifest>, o: seq<BucketManifest>, m: BucketManifest, i: nat)
    requires multiset(o) == multiset(ms) && Contends(rk, o, m, i)
    ensures Contends(rk, ms, m, i)
  {
    SameMembers(o, ms);
    forall st | st in RecordSteps(ms) ensures st in RecordSteps(o) {
      PermutedManifestsRecordTheSame(ms, o, st);
    }
  }

  /** The last best-ranked record of all is the last best-ranked one of its own manifest. */
  lemma {:induction false} LastBestOfManifest(rk: Ranking, ms: seq<BucketManifest>, x: nat)
      returns (m: BucketManifest, i: nat)
    requires LastBest(rk, RecordSteps(ms), x)
    ensures m in ms && LastBest(rk, ManifestSteps(m), i) && ManifestSteps(m)[i] == RecordSteps(ms)[x]
  {
    var n := |ms| - 1;
    var a, b := RecordSteps(ms[..n]), ManifestSteps(ms[n]);
    assert RecordSteps(ms) == a + b;
    if x < |a| {
      assert LastBest(rk, a, x) by {
        assert forall j | 0 <= j < |a| :: a[j] == (a + b)[j];
      }
      m, i := LastBestOfManifest(rk, ms[..n], x);
    } else {
      m, i := ms[n], x - |a|;
      assert LastBest(rk, b, i) by {
        assert forall j | 0 <= j < |b| :: b[j] == (a + b)[|a| + j];
      }
    }
  }

  lemma OwnerContends(rk: Ranking, ms: seq<BucketManifest>, k: string) returns (m: BucketManifest, i: nat)
    requires k in Loaded(rk, ms).byKey
    ensures Contends(rk, ms, m, i) && ManifestSteps(m)[i].key == k
    ensures Loaded(rk, ms).byKey[k] == EntryOf(rk, ManifestSteps(m)[i])
  {
    var steps := RecordSteps(ms);
    LoadedOwner(rk, steps, k);
    var x: nat :| LastBest(rk, steps, x) && steps[x].key == k && Loaded(rk, ms).byKey[k] == EntryOf(rk, steps[x]);
    m, i := LastBestOfManifest(rk, ms, x);
  }

  /** A contending record owns its key if its manifest happens to be processed last. */
  lemma ContenderCanOwn(rk: Ranking, ms: seq<BucketManifest>, m: BucketManifest, i: nat)
      returns (o: seq<BucketManifest>)
    requires Contends(rk, ms, m, i)
    ensures multiset(o) == multiset(ms)
    ensures Lookup(Loaded(rk, o), ManifestSteps(m)[i].key) == Some(EntryOf(rk, ManifestSteps(m)[i]))
  {
    var p: nat :| p < |ms| && ms[p] == m;
    o := MovedLast(ms, p);
    MovedLastPermutes(ms, p);
    var n := |o| - 1;
    var a, b := RecordSteps(o[..n]), ManifestSteps(m);
    assert o[n] == m && RecordSteps(o) == a + b;
    forall st: Step | st in a + b && st.key == b[i].key ensures rk.priority(b[i].bucket) <= rk.priority(st.bucket) {
      PermutedManifestsRecordTheSame(ms, o, st);
    }
    LastOfAll(rk, a, b, i);
    LastBestOwns(rk, a + b, |a| + i);
  }

  lemma LastOfAll(rk: Ranking, a: seq<Step>, b: seq<Step>, i: nat)
    requires AllRegister(a) && AllRegister(b) && LastBest(rk, b, i)
    requires forall st <- a + b | st.key == b[i].key :: rk.priority(b[i].bucket) <= rk.priority(st.bucket)
    ensures AllRegister(a + b) && LastBest(rk, a + b, |a| + i)
  {
    forall j | |a| + i < j < |a + b| && (a + b)[j].key == b[i].key
      ensures rk.priority(b[i].bucket) < rk.priority((a + b)[j].bucket)
    {
      assert (a + b)[j] == b[j - |a|];
    }
  }

  lemma AgreeingManifestsPermute(rk: Ranking, ms: seq<BucketManifest>, o: seq<BucketManifest>, k: string)
    requires ManifestsAgree(rk, ms) && multiset(o) == multiset(ms)
    ensures Lookup(Loaded(rk, o), k) == Lookup(Loaded(rk, ms), k)
  {
    SameRecordedKeys(rk, ms, o, k);
    if k in Loaded(rk, ms).byKey {
      var m, i := OwnerContends(rk, ms, k);
      var m2, j := OwnerContends(rk, o, k);
      ContendsPermutes(rk, ms, o, m2, j);
    }
  }

  lemma SameRecordedKeys(rk: Ranking, ms: seq<BucketManifest>, o: seq<BucketManifest>, k: string)
    requires multiset(o) == multiset(ms)
    ensures k in Loaded(rk, o).byKey <==> k in Loaded(rk, ms).byKey
  {
    LoadedOwner(rk, RecordSteps(ms), k);
    LoadedOwner(rk, RecordSteps(o), k);
    forall st: Step ensures st in RecordSteps(o) <==> st in RecordSteps(ms) {
      PermutedManifestsRecordTheSame(ms, o, st);
    }
  }

  lemma DisagreementMakesOrderMatter(rk: Ranking, ms: seq<BucketManifest>)
      returns (a: seq<BucketManifest>, b: seq<BucketManifest>)
    requires !ManifestsAgree(rk, ms)
    ensures multiset(a) == multiset(b) == multiset(ms) && Loaded(rk, a).byKey != Loaded(rk, b).byKey
  {
    var m: BucketManifest, i: nat, m2: BucketManifest, j: nat :|
      && Contends(rk, ms, m, i) && Contends(rk, ms, m2, j)
      && ManifestSteps(m)[i].key == ManifestSteps(m2)[j].key && ManifestSteps(m)[i] != ManifestSteps(m2)[j];
    a := ContenderCanOwn(rk, ms, m, i);
    b := ContenderCanOwn(rk, ms, m2, j);
    OwnersDiffer(rk, Loaded(rk, a), Loaded(rk, b), ManifestSteps(m)[i], ManifestSteps(m2)[j]);
  }

  lemma OwnersDiffer(rk: Ranking, s: State, t: State, x: Step, y: Step)
    requires x.Register? && y.Register? && x.key == y.key && x != y
    requires Lookup(s, x.key) == Some(EntryOf(rk, x)) && Lookup(t, y.key) == Some(EntryOf(rk, y))
    ensures s.byKey != t.byKey
  {
    assert EntryOf(rk, x) != EntryOf(rk, y);
  }

  /** The order of manifests is irrelevant exactly when the manifests agree on their best records. */
  lemma ManifestOrderIrrelevantIff(rk: Ranking, ms: seq<BucketManifest>)
    ensures (forall o: seq<BucketManifest> | multiset(o) == multiset(ms) ::
               Loaded(rk, o).byKey == Loaded(rk, ms).byKey) <==> ManifestsAgree(rk, ms)
  {
    if ManifestsAgree(rk, ms) {
      forall o: seq<BucketManifest> | multiset(o) == multiset(ms)
        ensures Loaded(rk, o).byKey == Loaded(rk, ms).byKey
      {
        forall k ensures Lookup(Loaded(rk, o), k) == Lookup(Loaded(rk, ms), k) {
          AgreeingManifestsPermute(rk, ms, o, k);
        }
        SameLookups(Loaded(rk, o), Loaded(rk, ms));
      }
    } else {
      var a, b := DisagreementMakesOrderMatter(rk, ms);
      assert Loaded(rk, a).byKey != Loaded(rk, ms).byKey || Loaded(rk, b).byKey != Loaded(rk, ms).byKey;
    }
  }

  /** If all best-ranked records of each key agree, so do the manifests. */
  lemma TieFreeManifestsAgree(rk: Ranking, ms: seq<BucketManifest>)
    requires TieFree(rk, RecordSteps(ms))
    ensures ManifestsAgree(rk, ms)
  {
    forall m: BucketManifest, i: nat | Contends(rk, ms, m, i)
      ensures exists x: nat :: Best(rk, RecordSteps(ms), x) && RecordSteps(ms)[x] == ManifestSteps(m)[i]
    {
      var st := ManifestSteps(m)[i];
      RecordStepsMember(ms, st);
      var x: nat :| x < |RecordSteps(ms)| && RecordSteps(ms)[x] == st;
      assert Best(rk, RecordSteps(ms), x);
    }
  }

  // ---------------------------------------------------------------------------------------
  // What is loaded
  // ---------------------------------------------------------------------------------------

  /** The item is in a manifest with readable content. */
  ghost predicate Listed(ms: seq<BucketManifest>, m: BucketManifest, e: Entry) {
    m in ms && m.content.length > 0 && m.content.files.Some? && e in m.content.files.value
  }

  lemma {:induction false} FileStepsMember(bucket: string, files: seq<Entry>, st: Step)
    ensures st in FileSteps(bucket, files) <==> exists e <- files ::
              e.key != "" && st == Register(e.key, if e.bucket == "" then bucket else e.bucket, e.size, e.lastModified)
  {
    if files == [] {
    } else {
      var n := |files| - 1;
      FileStepsMember(bucket, files[..n], st);
      assert files == files[..n] + [files[n]];
    }
  }

  lemma RecordedIff(ms: seq<BucketManifest>, st: Step)
    ensures st in RecordSteps(ms) <==> exists m: BucketManifest, e: Entry ::
              && Listed(ms, m, e) && e.key != ""
              && st == Register(e.key, if e.bucket == "" then m.bucket else e.bucket, e.size, e.lastModified)
  {
    RecordStepsMember(ms, st);
    if st in RecordSteps(ms) {
      var m :| m in ms && st in ManifestSteps(m);
      FileStepsMember(m.bucket, m.content.files.value, st);
      var e :| e in m.content.files.value && e.key != "" &&
        st == Register(e.key, if e.bucket == "" then m.bucket else e.bucket, e.size, e.lastModified);
      assert Listed(ms, m, e);
    }
    if m: BucketManifest, e: Entry :|
        && Listed(ms, m, e) && e.key != ""
        && st == Register(e.key, if e.bucket == "" then m.bucket else e.bucket, e.size, e.lastModified) {
      FileStepsMember(m.bucket, m.content.files.value, st);
    }
  }

  /** After loading, a key is owned as one of its items says: by the item's own bucket if it names
      one, otherwise by the manifest's, and by none that an item outranks. */
  lemma LoadedOwnerIsListed(rk: Ranking, ms: seq<BucketManifest>, k: string)
    requires k in Loaded(rk, ms).byKey
    ensures var x := Loaded(rk, ms).byKey[k];
            && k != ""
            && (exists m: BucketManifest, e: Entry ::
                  && Listed(ms, m, e) && e.key == k && x.bucket == (if e.bucket == "" then m.bucket else e.bucket)
                  && x.size == e.size && x.lastModified == e.lastModified)
            && (forall m: BucketManifest, e: Entry | Listed(ms, m, e) && e.key == k ::
                  rk.priority(x.bucket) <= rk.priority(if e.bucket == "" then m.bucket else e.bucket))
  {
    var steps := RecordSteps(ms);
    LoadedOwner(rk, steps, k);
    var i: nat :| LastBest(rk, steps, i) && steps[i].key == k && Loaded(rk, ms).byKey[k] == EntryOf(rk, steps[i]);
    RecordedIff(ms, steps[i]);
    forall m: BucketManifest, e: Entry | Listed(ms, m, e) && e.key == k
      ensures rk.priority(steps[i].bucket) <= rk.priority(if e.bucket == "" then m.bucket else e.bucket)
    {
      var st := Register(k, if e.bucket == "" then m.bucket else e.bucket, e.size, e.lastModified);
      RecordedIff(ms, st);
    }
  }

  /** Every item with a key is loaded. */
  lemma ListedIsLoaded(rk: Ranking, ms: seq<BucketManifest>, m: BucketManifest, e: Entry)
    requires Listed(ms, m, e) && e.key != ""
    ensures e.key in Loaded(rk, ms).byKey
  {
    var st := Register(e.key, if e.bucket == "" then m.bucket else e.bucket, e.size, e.lastModified);
    RecordedIff(ms, st);
    LoadedOwner(rk, RecordSteps(ms), e.key);
  }

  function OneFile(bucket: string, key: string): BucketManifest {
    BucketManifest(bucket, Body(1, Some([Entry(key, "", "", "", 0, "")])))
  }

  /** Two manifests that list one key, of buckets that tie, such as two unconfigured ones: the later manifest wins. */
  lemma TiedManifestsDependOnOrder(rk: Ranking, x: string, y: string)
    requires x != y && rk.priority(x) == rk.priority(y)
    ensures var a, b := OneFile(x, "k"), OneFile(y, "k"); Loaded(rk, [a, b]).byKey != Loaded(rk, [b, a]).byKey
  {
    TiedBucketsDependOnOrder(rk, "k", x, y);
    OneFileEach(x, y);
    OneFileEach(y, x);
  }

  lemma OneFileSteps(x: string)
    ensures ManifestSteps(OneFile(x, "k")) == [Register("k", x, 0, "")]
  {
    var files := OneFile(x, "k").content.files.value;
    assert files[..0] == [] && |files[0].key| == 1 && files[0].bucket == "";
    assert FileSteps(x, files) == [] + [Register("k", x, 0, "")];
  }

  lemma OneFileEach(x: string, y: string)
    ensures RecordSteps([OneFile(x, "k"), OneFile(y, "k")]) == [Register("k", x, 0, ""), Register("k", y, 0, "")]
  {
    var a, b := OneFile(x, "k"), OneFile(y, "k");
    assert [a, b][..1] == [a] && [a][..0] == [];
    OneFileSteps(x);
    OneFileSteps(y);
    assert RecordSteps([a]) == ManifestSteps(a);
  }

  // ---------------------------------------------------------------------------------------
  // Reloading
  // ---------------------------------------------------------------------------------------

  predicate StrictlySorted(files: seq<Entry>) {
    forall i, j | 0 <= i < j < |files| :: Less(files[i].key, files[j].key)
  }

  lemma HeadIsMember(s: seq<Entry>)
    requires s != []
    ensures s[0] in s
  {
  }

  /** Sorted output has only one possible order. */
  lemma {:induction false} SortedListingIsUnique(a: seq<Entry>, b: seq<Entry>)
    requires StrictlySorted(a) && StrictlySorted(b)
    requires forall e: Entry :: e in a <==> e in b
    ensures a == b
  {
    if a == [] {
      if b != [] { HeadIsMember(b); }
    } else {
      assert a[0] in b && (b == [] || b[0] in a);
      LessIsTotalOrder(a[0].key, b[0].key, a[0].key);
      assert a[0] == b[0];
      forall e: Entry ensures e in a[1..] <==> e in b[1..] {
        LessIsTotalOrder(a[0].key, a[0].key, a[0].key);
        assert e in a <==> e == a[0] || e in a[1..];
        assert e in b <==> e == b[0] || e in b[1..];
      }
      SortedListingIsUnique(a[1..], b[1..]);
      assert a == [a[0]] + a[1..] && b == [b[0]] + b[1..];
    }
  }

  /** These are the files of one bucket, in key order. */
  ghost predicate ListsBucket(s: State, bucket: string, files: seq<Entry>) {
    && StrictlySorted(files)
    && forall e: Entry :: e in files <==> Lookup(s, e.key) == Some(e) && e.bucket == bucket
  }

  /** Every record repeats what the catalog says about its key. */
  ghost predicate Drawn(rk: Ranking, s: State, steps: seq<Step>) {
    AllRegister(steps) && forall st <- steps :: Lookup(s, st.key) == Some(EntryOf(rk, st))
  }

  lemma {:induction false} DrawnIsConsistent(rk: Ranking, s: State, steps: seq<Step>)
    requires WellFormed(rk, s) && Consistent(s) && Drawn(rk, s, steps)
    ensures var t := Run(rk, EMPTY, steps);
            Consistent(t) && WellFormed(rk, t) && forall k <- t.byKey :: Lookup(s, k) == Some(t.byKey[k])
  {
    if steps == [] {
    } else {
      var init, step := steps[..|steps| - 1], steps[|steps| - 1];
      DrawnIsConsistent(rk, s, init);
      StepConsistentIff(rk, Run(rk, EMPTY, init), step);
    }
  }

  /** Reloading records drawn from a catalog and covering its keys rebuilds it exactly. */
  lemma ReloadIsExact(rk: Ranking, s: State, steps: seq<Step>)
    requires WellFormed(rk, s) && Consistent(s) && Drawn(rk, s, steps)
    requires forall k <- s.byKey :: exists st :: st in steps && st.key == k
    ensures Run(rk, EMPTY, steps) == s
  {
    var t := Run(rk, EMPTY, steps);
    DrawnIsConsistent(rk, s, steps);
    forall k ensures Lookup(t, k) == Lookup(s, k) {
      LoadedOwner(rk, steps, k);
    }
    SameLookups(t, s);
    EntriesDetermineRoutes(t, s);
  }

  /** One bucket's listing yields records drawn from the catalog, one for each of its named keys. */
  lemma {:induction false} FileStepsAreDrawn(rk: Ranking, s: State, bucket: string, files: seq<Entry>)
    requires WellFormed(rk, s)
    requires forall e <- files :: Lookup(s, e.key) == Some(e) && e.bucket == bucket
    ensures Drawn(rk, s, FileSteps(bucket, files))
    ensures forall e <- files | e.key != "" :: exists st :: st in FileSteps(bucket, files) && st.key == e.key
    ensures forall st <- FileSteps(bucket, files) :: st.key != ""
  {
    if files == [] {
    } else {
      var n := |files| - 1;
      var e, head, all := files[n], FileSteps(bucket, files[..n]), FileSteps(bucket, files);
      var last := Register(e.key, bucket, e.size, e.lastModified);
      FileStepsAreDrawn(rk, s, bucket, files[..n]);
      assert e in files && all == if e.key == "" then head else head + [last];
      forall x | x in files && x.key != "" ensures exists st :: st in all && st.key == x.key {
        if x == e {
          assert last in all;
        } else {
          assert x in files[..n];
          var st :| st in head && st.key == x.key;
          assert st in all;
        }
      }
    }
  }

  /** Readable content that lists exactly the files of its bucket. */
  ghost predicate Transcribes(s: State, m: BucketManifest) {
    m.content.length > 0 && m.content.files.Some? && ListsBucket(s, m.bucket, m.content.files.value)
  }

  lemma TranscriptIsDrawn(rk: Ranking, s: State, m: BucketManifest)
    requires WellFormed(rk, s) && Transcribes(s, m)
    ensures Drawn(rk, s, ManifestSteps(m)) && forall st <- ManifestSteps(m) :: st.key != ""
    ensures forall k <- s.byKey | s.byKey[k].bucket == m.bucket && k != "" ::
              exists st :: st in ManifestSteps(m) && st.key == k
  {
    var files := m.content.files.value;
    FileStepsAreDrawn(rk, s, m.bucket, files);
    forall k | k in s.byKey && s.byKey[k].bucket == m.bucket && k != ""
      ensures exists st :: st in ManifestSteps(m) && st.key == k
    {
      assert s.byKey[k] in files;
    }
  }

  lemma TranscriptsAreDrawn(rk: Ranking, s: State, ms: seq<BucketManifest>)
    requires WellFormed(rk, s) && forall m <- ms :: Transcribes(s, m)
    ensures Drawn(rk, s, RecordSteps(ms))
    ensures forall st <- RecordSteps(ms) :: st.key != ""
    ensures forall m <- ms, k <- s.byKey | s.byKey[k].bucket == m.bucket && k != "" ::
              exists st :: st in RecordSteps(ms) && st.key == k
  {
    forall st | st in RecordSteps(ms) ensures Lookup(s, st.key) == Some(EntryOf(rk, st)) && st.key != "" {
      RecordStepsMember(ms, st);
      var m :| m in ms && st in ManifestSteps(m);
      TranscriptIsDrawn(rk, s, m);
    }
    forall m, k | m in ms && k in s.byKey && s.byKey[k].bucket == m.bucket && k != ""
      ensures exists st :: st in RecordSteps(ms) && st.key == k
    {
      TranscriptIsDrawn(rk, s, m);
      var st :| st in ManifestSteps(m) && st.key == k;
      RecordStepsMember(ms, st);
    }
  }

  lemma {:induction false} UnrecordedKeyIsAbsent(rk: Ranking, steps: seq<Step>, k: string)
    requires AllRegister(steps) && forall st <- steps :: st.key != k
    ensures k !in Run(rk, EMPTY, steps).byKey
  {
    if steps == [] {
    } else {
      UnrecordedKeyIsAbsent(rk, steps[..|steps| - 1], k);
    }
  }

  /** A file named "" is registered, listed in its bucket's manifest, and lost on loading. */
  lemma EmptyKeyIsLost(rk: Ranking)
    ensures var e := MakeEntry(rk, "", "a", 1, "t");
            var s := State(map["" := e], map[e.route := ""]);
            var m := BucketManifest("a", Body(1, Some([e])));
            && s == Apply(rk, EMPTY, Register("", "a", 1, "t")) && WellFormed(rk, s) && Consistent(s)
            && Transcribes(s, m) && Loaded(rk, [m]) == EMPTY != s
  {
    var e := MakeEntry(rk, "", "a", 1, "t");
    var m := BucketManifest("a", Body(1, Some([e])));
    assert [e][..0] == [] && FileSteps("a", [e]) == [];
    assert [m][..0] == [] && RecordSteps([m]) == [];
    assert EMPTY.byKey == map[];
  }

  /** Loading manifests that transcribe every owner's files rebuilds the catalog, both maps,
      exactly when no key is empty. */
  lemma TranscriptsReloadIff(rk: Ranking, s: State, ms: seq<BucketManifest>)
    requires WellFormed(rk, s) && Consistent(s) && forall m <- ms :: Transcribes(s, m)
    requires forall k <- s.byKey :: exists m :: m in ms && m.bucket == s.byKey[k].bucket
    ensures Loaded(rk, ms) == s <==> "" !in s.byKey
  {
    TranscriptsAreDrawn(rk, s, ms);
    if "" in s.byKey {
      UnrecordedKeyIsAbsent(rk, RecordSteps(ms), "");
    } else {
      ReloadIsExact(rk, s, RecordSteps(ms));
    }
  }
}
