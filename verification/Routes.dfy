/** What a run of registrations, each of another key, does to the two maps. */
module Routes {
  import opened Outcomes
  import opened GenericFormat
  import opened CatalogState

  predicate OncePerKey(steps: seq<Step>)
    requires AllRegister(steps)
  {
    forall i, j | 0 <= i < j < |steps| :: steps[i].key != steps[j].key
  }

  ghost predicate Covers(steps: seq<Step>, k: string)
    requires AllRegister(steps)
  {
    exists x <- steps :: x.key == k
  }

  lemma {:induction false} RegistersLookup(rk: Ranking, s: State, steps: seq<Step>, k: string)
    requires AllRegister(steps) && OncePerKey(steps)
    ensures !Covers(steps, k) ==> Lookup(Run(rk, s, steps), k) == Lookup(s, k)
    ensures forall x <- steps | x.key == k :: Lookup(Run(rk, s, steps), k) == Admit(rk, Lookup(s, k), EntryOf(rk, x))
  {
    if steps == [] {
    } else {
      var n := |steps| - 1;
      var init, last := steps[..n], steps[n];
      RegistersLookup(rk, s, init, k);
      RegisterAdmits(rk, Run(rk, s, init), last, k);
      assert steps == init + [last];
      assert forall x <- init :: x.key != last.key;
    }
  }

  function RouteAt(s: State, r: string): Option<string> {
    if r in s.byRoute then Some(s.byRoute[r]) else None
  }

  lemma SameRoutes(s: State, t: State)
    requires forall r: string :: RouteAt(s, r) == RouteAt(t, r)
    ensures s.byRoute == t.byRoute
  {
    forall r ensures r in s.byRoute <==> r in t.byRoute { assert RouteAt(s, r) == RouteAt(t, r); }
    forall r | r in s.byRoute ensures s.byRoute[r] == t.byRoute[r] { assert RouteAt(s, r) == RouteAt(t, r); }
  }

  lemma DifferentKeysDifferentRoutes(bucket: string, c: string, d: string)
    requires c != d
    ensures Route(bucket, c) != Route(bucket, d)
  {
    assert Route(bucket, c)[|bucket| + 2..] == c && Route(bucket, d)[|bucket| + 2..] == d;
  }

  /** The registration passes the priority check. */
  predicate Admitted(rk: Ranking, s: State, x: Step)
    requires x.Register?
  {
    !Outranked(rk, Lookup(s, x.key), x.bucket)
  }

  /** The registration puts its key on the route. */
  predicate Takes(rk: Ranking, s: State, x: Step, r: string)
    requires x.Register?
  {
    Admitted(rk, s, x) && Route(x.bucket, x.key) == r
  }

  /** The registration moves its key off the route. */
  predicate Leaves(rk: Ranking, s: State, x: Step, r: string)
    requires x.Register?
  {
    && Admitted(rk, s, x) && Route(x.bucket, x.key) != r
    && x.key in s.byKey && s.byKey[x.key].route == r
  }

  lemma RegisterRoute(rk: Ranking, s: State, x: Step, r: string)
    requires x.Register?
    ensures RouteAt(Apply(rk, s, x), r) ==
            if Takes(rk, s, x, r) then Some(x.key) else if Leaves(rk, s, x, r) then None else RouteAt(s, r)
  {
  }

  /** Registration i is the last to take the route. */
  ghost predicate LastTaker(rk: Ranking, s: State, steps: seq<Step>, r: string, i: nat)
    requires AllRegister(steps)
  {
    && i < |steps| && Takes(rk, s, steps[i], r)
    && forall j | i < j < |steps| :: !Takes(rk, s, steps[j], r)
  }

  ghost predicate Taken(rk: Ranking, s: State, steps: seq<Step>, r: string)
    requires AllRegister(steps)
  {
    exists x <- steps :: Takes(rk, s, x, r)
  }

  /** No registration moves its key off a route that an earlier one took. */
  ghost predicate NoUndo(rk: Ranking, s: State, steps: seq<Step>)
    requires AllRegister(steps)
  {
    forall i, j | 0 <= i < j < |steps| && Admitted(rk, s, steps[i]) ::
      !Leaves(rk, s, steps[j], Route(steps[i].bucket, steps[i].key))
  }

  lemma {:induction false} TakenHasLast(rk: Ranking, s: State, steps: seq<Step>, r: string) returns (i: nat)
    requires AllRegister(steps) && Taken(rk, s, steps, r)
    ensures LastTaker(rk, s, steps, r, i)
  {
    var n := |steps| - 1;
    if Takes(rk, s, steps[n], r) {
      i := n;
    } else {
      assert steps == steps[..n] + [steps[n]];
      i := TakenHasLast(rk, s, steps[..n], r);
    }
  }

  /** The last step finds its key as it was at the start. */
  lemma LastStepRoute(rk: Ranking, s: State, steps: seq<Step>, r: string)
    requires AllRegister(steps) && OncePerKey(steps) && steps != []
    ensures var n := |steps| - 1;
            RouteAt(Run(rk, s, steps), r) ==
            if Takes(rk, s, steps[n], r) then Some(steps[n].key)
            else if Leaves(rk, s, steps[n], r) then None else RouteAt(Run(rk, s, steps[..n]), r)
  {
    var n := |steps| - 1;
    assert !Covers(steps[..n], steps[n].key);
    RegistersLookup(rk, s, steps[..n], steps[n].key);
    RegisterRoute(rk, Run(rk, s, steps[..n]), steps[n], r);
  }

  /** If nothing is undone, a route serves the key that took it last. */
  lemma {:induction false} LastTakerServes(rk: Ranking, s: State, steps: seq<Step>, r: string, i: nat)
    requires AllRegister(steps) && OncePerKey(steps) && NoUndo(rk, s, steps) && LastTaker(rk, s, steps, r, i)
    ensures RouteAt(Run(rk, s, steps), r) == Some(steps[i].key)
  {
    var n := |steps| - 1;
    LastStepRoute(rk, s, steps, r);
    if i == n {
    } else {
      LastTakerServes(rk, s, steps[..n], r, i);
    }
  }

  /** A route no registration took or left serves what it served before. */
  lemma {:induction false} UntouchedRoute(rk: Ranking, s: State, steps: seq<Step>, r: string)
    requires AllRegister(steps) && OncePerKey(steps)
    requires forall x <- steps :: !Takes(rk, s, x, r) && !Leaves(rk, s, x, r)
    ensures RouteAt(Run(rk, s, steps), r) == RouteAt(s, r)
  {
    if steps == [] {
    } else {
      var n := |steps| - 1;
      LastStepRoute(rk, s, steps, r);
      UntouchedRoute(rk, s, steps[..n], r);
    }
  }
}
