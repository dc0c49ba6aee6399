/** Weighted totals over lists of catalog entries. */
module Sums {
  import opened CatalogState
  import opened Sequences

  function Sum(es: seq<Entry>, w: Entry -> int): int {
    if es == [] then 0 else w(es[0]) + Sum(es[1..], w)
  }

  lemma {:induction false} SumConcat(a: seq<Entry>, b: seq<Entry>, w: Entry -> int)
    ensures Sum(a + b, w) == Sum(a, w) + Sum(b, w)
  {
    if a == [] {
      assert a + b == b;
    } else {
      SumConcat(a[1..], b, w);
      assert (a + b)[1..] == a[1..] + b;
    }
  }

  lemma {:induction false} SumPointwise(es: seq<Entry>, v: Entry -> int, w: Entry -> int)
    requires forall e <- es :: v(e) <= w(e)
    ensures Sum(es, v) <= Sum(es, w)
  {
    if es == [] {
    } else {
      SumPointwise(es[1..], v, w);
    }
  }

  lemma {:induction false} SumNonNegative(es: seq<Entry>, w: Entry -> int)
    requires forall e <- es :: w(e) >= 0
    ensures Sum(es, w) >= 0
  {
    if es == [] {
    } else {
      SumNonNegative(es[1..], w);
    }
  }

  function Without(es: seq<Entry>, i: nat): seq<Entry>
    requires i < |es|
  {
    es[..i] + es[i + 1..]
  }

  lemma WithoutOne(es: seq<Entry>, i: nat)
    requires i < |es|
    ensures multiset(es) == multiset{es[i]} + multiset(Without(es, i))
  {
    assert es == es[..i] + [es[i]] + es[i + 1..];
  }

  lemma SumWithoutOne(es: seq<Entry>, i: nat, w: Entry -> int)
    requires i < |es|
    ensures Sum(es, w) == w(es[i]) + Sum(Without(es, i), w)
  {
    var a, b := es[..i], es[i..];
    assert es == a + b && b[1..] == es[i + 1..];
    SumConcat(a, b, w);
    SumConcat(a, es[i + 1..], w);
  }

  /** Taking the first element of a from b keeps the two lists in step. */
  lemma StepDown(a: seq<Entry>, b: seq<Entry>) returns (i: nat)
    requires a != [] && multiset(a) <= multiset(b)
    ensures i < |b| && b[i] == a[0]
    ensures multiset(a[1..]) <= multiset(Without(b, i))
    ensures multiset(a) == multiset(b) ==> multiset(a[1..]) == multiset(Without(b, i))
  {
    assert a == [a[0]] + a[1..];
    assert a[0] in multiset(b);
    i :| i < |b| && b[i] == a[0];
    WithoutOne(b, i);
    assert multiset(a[1..]) == multiset(a) - multiset{a[0]};
    assert multiset(Without(b, i)) == multiset(b) - multiset{a[0]};
  }

  /** A part of a list weighs at most as much as the list. */
  lemma {:induction false} SumMonotone(a: seq<Entry>, b: seq<Entry>, w: Entry -> int)
    requires multiset(a) <= multiset(b) && forall e <- b :: w(e) >= 0
    ensures Sum(a, w) <= Sum(b, w)
  {
    if a == [] {
      SumNonNegative(b, w);
    } else {
      var i := StepDown(a, b);
      SumWithoutOne(b, i, w);
      SumMonotone(a[1..], Without(b, i), w);
    }
  }

  /** A total does not depend on the order of the list. */
  lemma {:induction false} SumPermutes(a: seq<Entry>, b: seq<Entry>, w: Entry -> int)
    requires multiset(a) == multiset(b)
    ensures Sum(a, w) == Sum(b, w)
  {
    if a == [] {
      SameMembers(a, b);
    } else {
      var i := StepDown(a, b);
      SumWithoutOne(b, i, w);
      SumPermutes(a[1..], Without(b, i), w);
    }
  }
}
