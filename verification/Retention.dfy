/** What a retention rule means, independently of how a plan is computed. */
module Retention {
  import opened Outcomes
  import opened Strings
  import opened Sequences
  import opened Sorting
  import opened CatalogState
  import opened Catalogs
  import opened Sums

  /** RFC 3339 parsing: the instant a timestamp denotes, if any. */
  type Parser = string -> Option<int>

  /** Retention thresholds; a threshold that is not positive, or a missing grouping, is off. */
  datatype Rule = Rule(maxAge: int, maxTotalSize: int, maxVersionCount: int, groupKey: Option<Entry -> string>)

  predicate Datable(parse: Parser, e: Entry) {
    parse(e.lastModified).Some?
  }

  /** Eviction order: by instant, then by key; entries without an instant come last, in no order. */
  predicate Before(parse: Parser, x: Entry, y: Entry) {
    var tx, ty := parse(x.lastModified), parse(y.lastModified);
    if tx.None? || ty.None? then tx.Some? && ty.None?
    else tx.value < ty.value || (tx.value == ty.value && Less(x.key, y.key))
  }

  function Order(parse: Parser): (Entry, Entry) -> bool {
    (x, y) => Before(parse, x, y)
  }

  lemma BeforeIsStrict(parse: Parser, x: Entry, y: Entry, z: Entry)
    ensures !(Before(parse, x, y) && Before(parse, y, x))
    ensures !Before(parse, y, x) && !Before(parse, z, y) ==> !Before(parse, z, x)
    ensures Datable(parse, x) && x.key != y.key ==> Before(parse, x, y) || Before(parse, y, x)
  {
    LessIsTotalOrder(x.key, y.key, z.key);
    LessIsTotalOrder(z.key, x.key, y.key);
    LessIsTotalOrder(y.key, z.key, x.key);
  }

  /** Weighs the entries that would go no earlier than x, undatable ones included. */
  function Behind(parse: Parser, w: Entry -> int, x: Entry): Entry -> int {
    y => if Before(parse, y, x) then 0 else w(y)
  }

  /** Even after everything older than e is gone, and at every stage before that, the limit is exceeded. */
  predicate Excess(parse: Parser, w: Entry -> int, limit: int, es: seq<Entry>, e: Entry) {
    && Datable(parse, e)
    && forall x <- es | Datable(parse, x) && !Before(parse, e, x) :: Sum(es, Behind(parse, w, x)) > limit
  }

  function SizeOf(): Entry -> int {
    (e: Entry) => e.size
  }

  function One(): Entry -> int {
    (e: Entry) => 1
  }

  /** The entries of one group, in list order. */
  function Group(es: seq<Entry>, groupKey: Entry -> string, name: string): seq<Entry> {
    if es == [] then []
    else
      var n := |es| - 1;
      Group(es[..n], groupKey, name) + if groupKey(es[n]) == name then [es[n]] else []
  }

  predicate OverAge(rule: Rule, parse: Parser, now: int, e: Entry) {
    rule.maxAge > 0 && var t := parse(e.lastModified); t.Some? && now - t.value > rule.maxAge
  }

  // With repeated keys the planner dates a key, not a record.

  /** The last record of a key. */
  function LastWith(es: seq<Entry>, k: string): (r: Option<Entry>)
    ensures if r.Some? then r.value in es && r.value.key == k else forall e <- es :: e.key != k
  {
    if es == [] then None
    else
      var n := |es| - 1;
      assert es == es[..n] + [es[n]];
      if es[n].key == k then Some(es[n]) else LastWith(es[..n], k)
  }

  /** The instant of the last record of a key that has one. */
  function AgeOf(parse: Parser, es: seq<Entry>, k: string): (r: Option<int>)
    ensures r.Some? <==> exists e <- es :: e.key == k && Datable(parse, e)
    ensures r.Some? ==> exists e <- es :: e.key == k && parse(e.lastModified) == r
  {
    if es == [] then None
    else
      var n := |es| - 1;
      assert es == es[..n] + [es[n]];
      if es[n].key == k && Datable(parse, es[n]) then parse(es[n].lastModified) else AgeOf(parse, es[..n], k)
  }

  /** The last record of a key over age. */
  predicate AgeChoice(maxAge: int, parse: Parser, now: int, es: seq<Entry>, e: Entry) {
    && maxAge > 0 && LastWith(es, e.key) == Some(e)
    && var t := AgeOf(parse, es, e.key); t.Some? && now - t.value > maxAge
  }

  /** With distinct keys, a key's instant and its last record are its one record's. */
  lemma DistinctKeysDate(parse: Parser, es: seq<Entry>, e: Entry)
    requires DistinctKeys(es) && e in es
    ensures AgeOf(parse, es, e.key) == parse(e.lastModified) && LastWith(es, e.key) == Some(e)
  {
    forall x | x in es && x.key == e.key ensures x == e {
      var i, j :| 0 <= i < |es| && 0 <= j < |es| && es[i] == x && es[j] == e;
    }
    if AgeOf(parse, es, e.key).Some? {
      var x :| x in es && x.key == e.key && parse(x.lastModified) == AgeOf(parse, es, e.key);
    }
  }

  lemma AgeChoiceIsOverAge(rule: Rule, parse: Parser, now: int, es: seq<Entry>, e: Entry)
    requires DistinctKeys(es)
    ensures AgeChoice(rule.maxAge, parse, now, es, e) <==> e in es && OverAge(rule, parse, now, e)
  {
    if e in es { DistinctKeysDate(parse, es, e); }
  }

  /** The age rule spares every entry without a readable timestamp, at all times and limits, exactly
      when no such entry is the last record of a key that another record dates. */
  lemma AgeRuleSparesUndatableIff(parse: Parser, es: seq<Entry>)
    ensures (forall maxAge: int, now: int, e: Entry | AgeChoice(maxAge, parse, now, es, e) :: Datable(parse, e)) <==>
            forall e <- es | LastWith(es, e.key) == Some(e) && !Datable(parse, e) :: AgeOf(parse, es, e.key).None?
  {
    forall e | e in es && LastWith(es, e.key) == Some(e) && AgeOf(parse, es, e.key).Some?
      ensures AgeChoice(1, parse, AgeOf(parse, es, e.key).value + 2, es, e)
    {
    }
  }

  /** "k" is recorded twice, first with a readable timestamp, then without: the second record goes. */
  lemma UndatableRecordIsEvicted(parse: Parser)
    requires parse("t") == Some(0) && parse("").None?
    ensures var x, y := Entry("k", "a", "private", "/a/k", 1, "t"), Entry("k", "a", "private", "/a/k", 1, "");
            AgeChoice(1, parse, 2, [x, y], y) && !Datable(parse, y)
  {
    var x, y := Entry("k", "a", "private", "/a/k", 1, "t"), Entry("k", "a", "private", "/a/k", 1, "");
    assert [x, y][..1] == [x];
    assert AgeOf(parse, [x], "k") == Some(0);
  }

  predicate OverSize(rule: Rule, parse: Parser, es: seq<Entry>, e: Entry) {
    rule.maxTotalSize > 0 && Excess(parse, SizeOf(), rule.maxTotalSize, es, e)
  }

  predicate OverCount(rule: Rule, parse: Parser, es: seq<Entry>, e: Entry) {
    && rule.maxVersionCount > 0 && rule.groupKey.Some?
    && var g := rule.groupKey.value;
       g(e) != "" && Excess(parse, One(), rule.maxVersionCount, Group(es, g, g(e)), e)
  }

  predicate Victim(rule: Rule, parse: Parser, now: int, es: seq<Entry>, e: Entry) {
    OverAge(rule, parse, now, e) || OverSize(rule, parse, es, e) || OverCount(rule, parse, es, e)
  }

  /** The victims of a rule, in key order. */
  ghost predicate IsPlan(rule: Rule, parse: Parser, now: int, es: seq<Entry>, plan: seq<Entry>) {
    StrictlySorted(plan) && forall e: Entry :: e in plan <==> e in es && Victim(rule, parse, now, es, e)
  }

  // ---------------------------------------------------------------------------------------
  // Order independence
  // ---------------------------------------------------------------------------------------

  lemma {:induction false} GroupCounts(es: seq<Entry>, g: Entry -> string, name: string, e: Entry)
    ensures multiset(Group(es, g, name))[e] == if g(e) == name then multiset(es)[e] else 0
  {
    if es == [] {
    } else {
      var n := |es| - 1;
      GroupCounts(es[..n], g, name, e);
      assert es == es[..n] + [es[n]];
    }
  }

  lemma GroupPermutes(a: seq<Entry>, b: seq<Entry>, g: Entry -> string, name: string)
    requires multiset(a) == multiset(b)
    ensures multiset(Group(a, g, name)) == multiset(Group(b, g, name))
  {
    forall e ensures multiset(Group(a, g, name))[e] == multiset(Group(b, g, name))[e] {
      GroupCounts(a, g, name, e);
      GroupCounts(b, g, name, e);
    }
  }

  lemma ExcessPermutes(parse: Parser, w: Entry -> int, limit: int, a: seq<Entry>, b: seq<Entry>, e: Entry)
    requires multiset(a) == multiset(b)
    ensures Excess(parse, w, limit, a, e) <==> Excess(parse, w, limit, b, e)
  {
    SameMembers(a, b);
    forall x: Entry ensures Sum(a, Behind(parse, w, x)) == Sum(b, Behind(parse, w, x)) {
      SumPermutes(a, b, Behind(parse, w, x));
    }
  }

  /** Every permutation of the entries has the same plan, and no plan selects what it cannot date. */
  lemma PlanIsDetermined(rule: Rule, parse: Parser, now: int, a: seq<Entry>, b: seq<Entry>, p: seq<Entry>,
      q: seq<Entry>)
    requires multiset(a) == multiset(b)
    requires IsPlan(rule, parse, now, a, p) && IsPlan(rule, parse, now, b, q)
    ensures p == q && forall e <- p :: Datable(parse, e)
  {
    SameMembers(a, b);
    forall e: Entry ensures e in p <==> e in q {
      ExcessPermutes(parse, SizeOf(), rule.maxTotalSize, a, b, e);
      if rule.groupKey.Some? {
        var g := rule.groupKey.value;
        GroupPermutes(a, b, g, g(e));
        ExcessPermutes(parse, One(), rule.maxVersionCount, Group(a, g, g(e)), Group(b, g, g(e)), e);
      }
    }
    SortedListingIsUnique(p, q);
  }

  // ---------------------------------------------------------------------------------------
  // Planning again
  // ---------------------------------------------------------------------------------------

  /** With non-negative weights only the last stage matters. */
  lemma ExcessIff(parse: Parser, w: Entry -> int, limit: int, es: seq<Entry>, e: Entry)
    requires e in es && forall x <- es :: w(x) >= 0
    ensures Excess(parse, w, limit, es, e) <==> Datable(parse, e) && Sum(es, Behind(parse, w, e)) > limit
  {
    BeforeIsStrict(parse, e, e, e);
    forall x | x in es && !Before(parse, e, x)
      ensures Sum(es, Behind(parse, w, e)) <= Sum(es, Behind(parse, w, x))
    {
      forall y | y in es ensures Behind(parse, w, e)(y) <= Behind(parse, w, x)(y) {
        BeforeIsStrict(parse, x, e, y);
        BeforeIsStrict(parse, e, x, y);
        BeforeIsStrict(parse, y, x, e);
      }
      SumPointwise(es, Behind(parse, w, e), Behind(parse, w, x));
    }
  }

  lemma ExcessShrinks(parse: Parser, w: Entry -> int, limit: int, part: seq<Entry>, es: seq<Entry>, e: Entry)
    requires multiset(part) <= multiset(es) && e in part && forall x <- es :: w(x) >= 0
    requires Excess(parse, w, limit, part, e)
    ensures Excess(parse, w, limit, es, e)
  {
    forall x | x in part ensures x in es {
      assert x in multiset(part);
    }
    ExcessIff(parse, w, limit, part, e);
    ExcessIff(parse, w, limit, es, e);
    SumMonotone(part, es, Behind(parse, w, e));
  }

  /** Removing entries never makes a new victim. */
  lemma VictimsShrink(rule: Rule, parse: Parser, now: int, part: seq<Entry>, es: seq<Entry>, e: Entry)
    requires multiset(part) <= multiset(es) && e in part && forall x <- es :: x.size >= 0
    requires Victim(rule, parse, now, part, e)
    ensures Victim(rule, parse, now, es, e)
  {
    if OverSize(rule, parse, part, e) {
      ExcessShrinks(parse, SizeOf(), rule.maxTotalSize, part, es, e);
    }
    if OverCount(rule, parse, part, e) {
      var g := rule.groupKey.value;
      var small, large := Group(part, g, g(e)), Group(es, g, g(e));
      forall x ensures multiset(small)[x] <= multiset(large)[x] {
        GroupCounts(part, g, g(e), x);
        GroupCounts(es, g, g(e), x);
      }
      GroupCounts(part, g, g(e), e);
      assert e in multiset(part);
      assert e in multiset(small);
      ExcessShrinks(parse, One(), rule.maxVersionCount, small, large, e);
    }
  }

  // ---------------------------------------------------------------------------------------
  // Plans as prefixes of the eviction order
  // ---------------------------------------------------------------------------------------

  /** Some result of sorting the entries into eviction order. */
  ghost predicate Sorted(parse: Parser, es: seq<Entry>, s: seq<Entry>) {
    multiset(s) == multiset(es) && DistinctKeys(s) && NoInversions(s, Order(parse))
  }

  lemma SortedPositions(parse: Parser, es: seq<Entry>, s: seq<Entry>, i: nat, j: nat)
    requires Sorted(parse, es, s) && i < |s| && j < |s| && Datable(parse, s[i])
    ensures Before(parse, s[j], s[i]) <==> j < i
    ensures j <= i ==> Datable(parse, s[j])
  {
    BeforeIsStrict(parse, s[i], s[j], s[i]);
    if j < i {
      assert !Order(parse)(s[i], s[j]);
    } else if i < j {
      assert !Order(parse)(s[j], s[i]);
    }
  }

  lemma {:induction false} SumOfPrefix(parse: Parser, es: seq<Entry>, s: seq<Entry>, w: Entry -> int, i: nat, k: nat)
    requires Sorted(parse, es, s) && k <= i < |s| && Datable(parse, s[i])
    ensures Sum(s[..k], Behind(parse, w, s[i])) == 0
  {
    if k > 0 {
      SumOfPrefix(parse, es, s, w, i, k - 1);
      assert s[..k] == s[..k - 1] + [s[k - 1]];
      SumConcat(s[..k - 1], [s[k - 1]], Behind(parse, w, s[i]));
      SortedPositions(parse, es, s, i, k - 1);
    }
  }

  lemma {:induction false} SumOfSuffix(parse: Parser, es: seq<Entry>, s: seq<Entry>, w: Entry -> int, i: nat, k: nat)
    requires Sorted(parse, es, s) && i <= k <= |s| && i < |s| && Datable(parse, s[i])
    ensures Sum(s[k..], Behind(parse, w, s[i])) == Sum(s[k..], w)
    decreases |s| - k
  {
    if k < |s| {
      SumOfSuffix(parse, es, s, w, i, k + 1);
      assert s[k..][1..] == s[k + 1..];
      SortedPositions(parse, es, s, i, k);
    }
  }

  /** What lies behind a datable entry is the rest of the sorted list. */
  lemma BehindIsSuffix(parse: Parser, es: seq<Entry>, s: seq<Entry>, w: Entry -> int, i: nat)
    requires Sorted(parse, es, s) && i < |s| && Datable(parse, s[i])
    ensures Sum(es, Behind(parse, w, s[i])) == Sum(s[i..], w)
  {
    var b := Behind(parse, w, s[i]);
    SumPermutes(es, s, b);
    assert s == s[..i] + s[i..];
    SumConcat(s[..i], s[i..], b);
    SumOfPrefix(parse, es, s, w, i, i);
    SumOfSuffix(parse, es, s, w, i, i);
  }

  /** Evicting stops at v: everything before is datable and was still needed, and at v the list
      ends, cannot be dated any further, or is within the limit. */
  ghost predicate CutAt(parse: Parser, w: Entry -> int, limit: int, s: seq<Entry>, v: nat) {
    && v <= |s|
    && (forall j | 0 <= j < v :: Datable(parse, s[j]) && Sum(s[j..], w) > limit)
    && (v == |s| || !Datable(parse, s[v]) || Sum(s[v..], w) <= limit)
  }

  /** The entries before the cut are exactly the ones in excess. */
  lemma CutIsExcess(parse: Parser, w: Entry -> int, limit: int, es: seq<Entry>, s: seq<Entry>, v: nat, i: nat)
    requires Sorted(parse, es, s) && CutAt(parse, w, limit, s, v) && i < |s|
    ensures i < v <==> Excess(parse, w, limit, es, s[i])
  {
    SameMembers(es, s);
    if i < v {
      forall x | x in es && Datable(parse, x) && !Before(parse, s[i], x) ensures Sum(es, Behind(parse, w, x)) > limit {
        var j: nat :| j < |s| && s[j] == x;
        SortedPositions(parse, es, s, j, i);
        BehindIsSuffix(parse, es, s, w, j);
      }
    } else if Datable(parse, s[i]) {
      SortedPositions(parse, es, s, i, v);
      SortedPositions(parse, es, s, v, i);
      BehindIsSuffix(parse, es, s, w, v);
      assert s[v] in es;
    }
  }

  /** Evicting the first n entries of the order meets the age and size thresholds, or leaves
      nothing that could still be evicted. */
  ghost predicate Meets(rule: Rule, parse: Parser, now: int, s: seq<Entry>, n: nat)
    requires n <= |s|
  {
    && (forall i | n <= i < |s| :: !OverAge(rule, parse, now, s[i]))
    && (rule.maxTotalSize > 0 && Sum(s[n..], SizeOf()) > rule.maxTotalSize ==>
          forall i | n <= i < |s| :: !Datable(parse, s[i]))
  }

  /** An older entry goes no later. */
  lemma VictimsAreOldest(rule: Rule, parse: Parser, now: int, es: seq<Entry>, s: seq<Entry>, i: nat, j: nat)
    requires Sorted(parse, es, s) && i < j < |s|
    requires !OverCount(rule, parse, es, s[j]) && Victim(rule, parse, now, es, s[j])
    ensures Victim(rule, parse, now, es, s[i])
  {
    SortedPositions(parse, es, s, j, i);
    if OverSize(rule, parse, es, s[j]) {
      forall x | x in es && Datable(parse, x) && !Before(parse, s[i], x)
        ensures Sum(es, Behind(parse, SizeOf(), x)) > rule.maxTotalSize
      {
        BeforeIsStrict(parse, x, s[i], s[j]);
      }
    }
  }

  /** Without version counts, whatever comes before a victim goes too: the older of two readable
      entries, and of two at one instant the one whose key comes first. */
  lemma OldestGoFirst(rule: Rule, parse: Parser, now: int, es: seq<Entry>, x: Entry, y: Entry)
    requires rule.maxVersionCount <= 0 || rule.groupKey.None?
    requires x in es && Victim(rule, parse, now, es, y) && Datable(parse, x)
    requires var t, u := parse(x.lastModified).value, parse(y.lastModified);
             u.Some? && (t < u.value ||
               (t == u.value && (x.key < y.key || exists i | 0 <= i < |x.key| && i < |y.key| ::
                  x.key[..i] == y.key[..i] && x.key[i] < y.key[i])))
    ensures Victim(rule, parse, now, es, x)
  {
    LessIff(x.key, y.key);
    assert Before(parse, x, y);
    BeforeIsStrict(parse, x, y, x);
    if OverSize(rule, parse, es, y) {
      forall z | z in es && Datable(parse, z) && !Before(parse, x, z)
        ensures Sum(es, Behind(parse, SizeOf(), z)) > rule.maxTotalSize
      {
        BeforeIsStrict(parse, z, x, y);
      }
    }
  }

  /** Without version counts, the victims are the shortest prefix of the eviction order that
      meets the thresholds. */
  lemma PlanIsShortestPrefix(rule: Rule, parse: Parser, now: int, es: seq<Entry>, s: seq<Entry>) returns (n: nat)
    requires Sorted(parse, es, s) && (rule.maxVersionCount <= 0 || rule.groupKey.None?)
    requires forall e <- es :: e.size >= 0
    ensures n <= |s|
    ensures forall i | 0 <= i < |s| :: Victim(rule, parse, now, es, s[i]) <==> i < n
    ensures Meets(rule, parse, now, s, n)
    ensures forall m | 0 <= m < n :: !Meets(rule, parse, now, s, m)
  {
    SameMembers(es, s);
    n := First(s, e => !Victim(rule, parse, now, es, e));
    forall i | 0 <= i < |s| ensures Victim(rule, parse, now, es, s[i]) <==> i < n {
      if n < i && Victim(rule, parse, now, es, s[i]) {
        VictimsAreOldest(rule, parse, now, es, s, n, i);
      }
    }
    if n < |s| && Datable(parse, s[n]) {
      BehindIsSuffix(parse, es, s, SizeOf(), n);
      ExcessIff(parse, SizeOf(), rule.maxTotalSize, es, s[n]);
    }
    forall i | n <= i < |s| && Datable(parse, s[i]) ensures Datable(parse, s[n]) {
      SortedPositions(parse, es, s, i, n);
    }
    forall m | 0 <= m < n ensures !Meets(rule, parse, now, s, m) {
      if OverSize(rule, parse, es, s[m]) {
        BehindIsSuffix(parse, es, s, SizeOf(), m);
        ExcessIff(parse, SizeOf(), rule.maxTotalSize, es, s[m]);
      }
    }
  }

  /** The bytes left when a plan is carried out. */
  function SizeLeft(es: seq<Entry>, plan: seq<Entry>): int {
    if es == [] then 0 else (if es[0] in plan then 0 else es[0].size) + SizeLeft(es[1..], plan)
  }

  function LeftOver(plan: seq<Entry>): Entry -> int {
    e => if e in plan then 0 else e.size
  }

  lemma {:induction false} SizeLeftIsSum(es: seq<Entry>, plan: seq<Entry>)
    ensures SizeLeft(es, plan) == Sum(es, LeftOver(plan))
  {
    if es == [] {
    } else {
      SizeLeftIsSum(es[1..], plan);
    }
  }

  /** If exactly the first n entries of the order go, what is left is the rest. */
  lemma SizeLeftBehind(es: seq<Entry>, s: seq<Entry>, plan: seq<Entry>, n: nat)
    requires multiset(s) == multiset(es) && n <= |s| && forall i | 0 <= i < |s| :: s[i] in plan <==> i < n
    ensures SizeLeft(es, plan) == Sum(s[n..], SizeOf())
  {
    SizeLeftIsSum(es, plan);
    SumPermutes(es, s, LeftOver(plan));
    assert s == s[..n] + s[n..];
    SumConcat(s[..n], s[n..], LeftOver(plan));
    SumOfEqual(s[..n], LeftOver(plan), Zero());
    SumOfZero(s[..n]);
    SumOfEqual(s[n..], LeftOver(plan), SizeOf());
  }

  function Zero(): Entry -> int {
    e => 0
  }

  lemma {:induction false} SumOfZero(es: seq<Entry>)
    ensures Sum(es, Zero()) == 0
  {
    if es == [] {
    } else {
      SumOfZero(es[1..]);
    }
  }

  lemma SumOfEqual(es: seq<Entry>, v: Entry -> int, w: Entry -> int)
    requires forall e <- es :: v(e) == w(e)
    ensures Sum(es, v) == Sum(es, w)
  {
    SumPointwise(es, v, w);
    SumPointwise(es, w, v);
  }

  lemma OrderIsWeak(parse: Parser)
    ensures WeakOrder(Order(parse))
  {
    forall x: Entry, y: Entry, z: Entry
      ensures Order(parse)(x, y) ==> !Order(parse)(y, x)
      ensures !Order(parse)(y, x) && !Order(parse)(z, y) ==> !Order(parse)(z, x)
    {
      BeforeIsStrict(parse, x, y, z);
    }
  }

  /** The size rule alone. */
  predicate SizeOnly(rule: Rule) {
    rule.maxAge <= 0 && rule.maxTotalSize > 0 && (rule.maxVersionCount <= 0 || rule.groupKey.None?)
  }

  /** The plan is the shortest prefix of the order that meets the rule. */
  ghost predicate ShortestPrefix(rule: Rule, parse: Parser, now: int, s: seq<Entry>, plan: seq<Entry>, n: nat) {
    && n <= |s| && (forall i | 0 <= i < |s| :: s[i] in plan <==> i < n)
    && Meets(rule, parse, now, s, n) && forall m | 0 <= m < n :: !Meets(rule, parse, now, s, m)
  }

  lemma PlanPrefix(rule: Rule, parse: Parser, now: int, es: seq<Entry>, plan: seq<Entry>)
      returns (s: seq<Entry>, n: nat)
    requires DistinctKeys(es) && IsPlan(rule, parse, now, es, plan) && forall e <- es :: e.size >= 0
    requires SizeOnly(rule)
    ensures multiset(s) == multiset(es) && ShortestPrefix(rule, parse, now, s, plan, n)
  {
    OrderIsWeak(parse);
    s := SortedExists(es, Order(parse));
    SameMembers(s, es);
    DistinctKeysPermute(es, s);
    n := PlanIsShortestPrefix(rule, parse, now, es, s);
    forall i | 0 <= i < |s| ensures s[i] in plan <==> i < n {
      assert s[i] in es;
    }
  }

  lemma PrefixFits(rule: Rule, parse: Parser, now: int, s: seq<Entry>, plan: seq<Entry>, n: nat, e: Entry)
    requires SizeOnly(rule) && ShortestPrefix(rule, parse, now, s, plan, n)
    requires Sum(s[n..], SizeOf()) > rule.maxTotalSize && e in s && e !in plan
    ensures parse(e.lastModified).None?
  {
    var i :| 0 <= i < |s| && s[i] == e;
    assert !Datable(parse, s[i]);
  }

  lemma PrefixIsNeeded(rule: Rule, parse: Parser, now: int, s: seq<Entry>, plan: seq<Entry>, n: nat)
    requires SizeOnly(rule) && ShortestPrefix(rule, parse, now, s, plan, n) && n > 0
    ensures s[n - 1] in plan && Sum(s[n..], SizeOf()) + s[n - 1].size > rule.maxTotalSize
  {
    assert !Meets(rule, parse, now, s, n - 1);
    assert s[n - 1..] == [s[n - 1]] + s[n..];
  }

  /** The size rule alone leaves at most the limit, or nothing readable; and sparing one victim, the
      last to go, would have left more than the limit. */
  lemma PlanFitsSize(rule: Rule, parse: Parser, now: int, es: seq<Entry>, plan: seq<Entry>)
    requires DistinctKeys(es) && IsPlan(rule, parse, now, es, plan) && forall e <- es :: e.size >= 0
    requires rule.maxAge <= 0 && rule.maxTotalSize > 0 && (rule.maxVersionCount <= 0 || rule.groupKey.None?)
    ensures SizeLeft(es, plan) <= rule.maxTotalSize || forall e <- es | e !in plan :: parse(e.lastModified).None?
    ensures plan != [] ==> exists e <- plan :: SizeLeft(es, plan) + e.size > rule.maxTotalSize
  {
    var s, n := PlanPrefix(rule, parse, now, es, plan);
    SameMembers(s, es);
    SizeLeftBehind(es, s, plan, n);
    if SizeLeft(es, plan) > rule.maxTotalSize {
      forall e | e in es && e !in plan ensures parse(e.lastModified).None? {
        PrefixFits(rule, parse, now, s, plan, n, e);
      }
    }
    if plan != [] {
      HeadIsMember(plan);
      assert plan[0] in s;
      PrefixIsNeeded(rule, parse, now, s, plan, n);
    }
  }

  // ---------------------------------------------------------------------------------------
  // Version counts
  // ---------------------------------------------------------------------------------------

  function Undatable(parse: Parser): Entry -> int {
    e => if Datable(parse, e) then 0 else 1
  }

  lemma {:induction false} SumOne(es: seq<Entry>)
    ensures Sum(es, One()) == |es|
  {
    if es == [] {
    } else {
      SumOne(es[1..]);
    }
  }

  lemma {:induction false} CountUndatable(parse: Parser, s: seq<Entry>, known: bool)
    requires forall e <- s :: Datable(parse, e) <==> known
    ensures Sum(s, Undatable(parse)) == if known then 0 else |s|
  {
    if s == [] {
    } else {
      CountUndatable(parse, s[1..], known);
    }
  }

  lemma RestIsUndatable(parse: Parser, es: seq<Entry>, s: seq<Entry>, v: nat)
    requires Sorted(parse, es, s) && v < |s| && !Datable(parse, s[v])
    ensures Sum(s[v..], Undatable(parse)) == |s| - v
  {
    forall e | e in s[v..] ensures !Datable(parse, e) {
      var i: nat :| i < |s[v..]| && s[v..][i] == e;
      assert i > 0 ==> !Order(parse)(s[v + i], s[v]);
    }
    CountUndatable(parse, s[v..], false);
  }

  lemma UndatableAtMostAll(parse: Parser, s: seq<Entry>)
    ensures Sum(s, Undatable(parse)) <= |s|
  {
    SumPointwise(s, Undatable(parse), One());
    SumOne(s);
  }

  lemma UndatableBehind(parse: Parser, s: seq<Entry>, v: nat)
    requires v <= |s| && forall j | 0 <= j < v :: Datable(parse, s[j])
    ensures Sum(s, Undatable(parse)) == Sum(s[v..], Undatable(parse))
  {
    assert s == s[..v] + s[v..];
    SumConcat(s[..v], s[v..], Undatable(parse));
    CountUndatable(parse, s[..v], true);
  }

  lemma UndatableBehindCut(parse: Parser, limit: int, es: seq<Entry>, s: seq<Entry>, v: nat)
    requires Sorted(parse, es, s) && CutAt(parse, One(), limit, s, v)
    ensures Sum(es, Undatable(parse)) == Sum(s[v..], Undatable(parse)) <= |s| - v
  {
    SumPermutes(es, s, Undatable(parse));
    UndatableBehind(parse, s, v);
    UndatableAtMostAll(parse, s[v..]);
  }

  /** An over-full group keeps as many members as allowed, or its undatable ones if they are more. */
  lemma CutKeeps(parse: Parser, limit: int, es: seq<Entry>, s: seq<Entry>, v: nat)
    requires Sorted(parse, es, s) && CutAt(parse, One(), limit, s, v) && 0 < limit < |s|
    ensures var u := Sum(es, Undatable(parse)); |s| - v == if u > limit then u else limit
  {
    UndatableBehindCut(parse, limit, es, s, v);
    if v > 0 { SumOne(s[v - 1..]); }
    if v < |s| {
      SumOne(s[v..]);
      if !Datable(parse, s[v]) { RestIsUndatable(parse, es, s, v); }
    }
  }

  /** Within a group the datable members kept are newer than every member evicted. */
  lemma KeptAreNewer(rule: Rule, parse: Parser, es: seq<Entry>, gone: Entry, kept: Entry)
    requires DistinctKeys(es) && gone in es && kept in es
    requires OverCount(rule, parse, es, gone) && !OverCount(rule, parse, es, kept)
    requires Datable(parse, kept) && rule.groupKey.value(kept) == rule.groupKey.value(gone)
    ensures Before(parse, gone, kept)
    ensures var t, u := parse(gone.lastModified), parse(kept.lastModified);
            && t.Some? && u.Some?
            && (t.value < u.value ||
                (t.value == u.value &&
                 (gone.key < kept.key || exists i | 0 <= i < |gone.key| && i < |kept.key| ::
                    gone.key[..i] == kept.key[..i] && gone.key[i] < kept.key[i])))
  {
    LessIff(gone.key, kept.key);
    if !Before(parse, gone, kept) {
      forall x | !Before(parse, kept, x) ensures !Before(parse, gone, x) {
        BeforeIsStrict(parse, kept, x, gone);
        BeforeIsStrict(parse, x, kept, gone);
        BeforeIsStrict(parse, kept, gone, kept);
      }
    }
  }
}
