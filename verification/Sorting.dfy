/** Go's `sort.Slice`: any comparison-based sort, with no promise about equal elements. */
module Sorting {
  import opened Sequences

  ghost predicate WeakOrder<T(!new)>(less: (T, T) -> bool) {
    && (forall x, y :: less(x, y) ==> !less(y, x))
    && (forall x, y, z :: !less(y, x) && !less(z, y) ==> !less(z, x))
  }

  ghost predicate NoInversions<T>(s: seq<T>, less: (T, T) -> bool) {
    forall i, j | 0 <= i < j < |s| :: !less(s[j], s[i])
  }

  function Inserted<T>(r: seq<T>, x: T, j: nat): seq<T>
    requires j <= |r|
  {
    r[..j] + [x] + r[j..]
  }

  lemma InsertionKeepsMembers<T>(r: seq<T>, x: T, j: nat)
    requires j <= |r|
    ensures multiset(Inserted(r, x, j)) == multiset(r) + multiset{x}
  {
    assert r == r[..j] + r[j..];
  }

  lemma InsertionKeepsOrder<T(!new)>(r: seq<T>, x: T, j: nat, less: (T, T) -> bool)
    requires WeakOrder(less) && NoInversions(r, less) && j <= |r|
    requires j > 0 ==> !less(x, r[j - 1])
    requires forall k | j <= k < |r| :: less(x, r[k])
    ensures NoInversions(Inserted(r, x, j), less)
  {
  }

  method Sort<T(!new)>(a: seq<T>, less: (T, T) -> bool) returns (r: seq<T>)
    requires WeakOrder(less)
    ensures multiset(r) == multiset(a)
    ensures NoInversions(r, less)
  {
    r := [];
    for i := 0 to |a|
      invariant multiset(r) == multiset(a[..i])
      invariant NoInversions(r, less)
    {
      var j := |r|;
      while j > 0 && less(a[i], r[j - 1])
        invariant 0 <= j <= |r|
        invariant forall k | j <= k < |r| :: less(a[i], r[k])
      {
        j := j - 1;
      }
      InsertionKeepsOrder(r, a[i], j, less);
      InsertionKeepsMembers(r, a[i], j);
      assert a[..i + 1] == a[..i] + [a[i]];
      r := Inserted(r, a[i], j);
    }
    assert a[..|a|] == a;
  }

  /** Every list can be sorted. */
  lemma {:induction false} SortedExists<T(!new)>(a: seq<T>, less: (T, T) -> bool) returns (r: seq<T>)
    requires WeakOrder(less)
    ensures multiset(r) == multiset(a) && NoInversions(r, less)
  {
    if a == [] {
      r := [];
    } else {
      var n := |a| - 1;
      var x := a[n];
      var init := SortedExists(a[..n], less);
      var j := First(init, y => less(x, y));
      forall k | j <= k < |init| ensures less(x, init[k]) {
        assert k > j ==> !less(init[k], init[j]);
      }
      InsertionKeepsOrder(init, x, j, less);
      InsertionKeepsMembers(init, x, j);
      assert a == a[..n] + [x];
      r := Inserted(init, x, j);
    }
  }
}
