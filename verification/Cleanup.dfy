/** The retention planner and the execution of its plans. */
module Cleanup {
  import opened Outcomes
  import opened Strings
  import opened Sequences
  import opened Sorting
  import opened CatalogState
  import opened Catalogs
  import opened Storage
  import opened Sums
  import opened Retention

  /** The table dates each key by the last of its records that can be dated. */
  ghost predicate DatesByLast(parse: Parser, es: seq<Entry>, ages: map<string, int>) {
    forall k: string :: (if k in ages then Some(ages[k]) else None) == AgeOf(parse, es, k)
  }

  method ParseAges(parse: Parser, es: seq<Entry>) returns (ages: map<string, int>)
    ensures DatesByLast(parse, es, ages)
  {
    ages := map[];
    for i := 0 to |es|
      invariant DatesByLast(parse, es[..i], ages)
    {
      var t := parse(es[i].lastModified);
      assert es[..i + 1][..i] == es[..i];
      if t.Some? {
        ages := ages[es[i].key := t.value];
      }
    }
    assert es[..|es|] == es;
  }

  /** The comparison both sorts use. */
  predicate Older(ages: map<string, int>, x: Entry, y: Entry) {
    if x.key !in ages || y.key !in ages then x.key in ages && y.key !in ages
    else ages[x.key] < ages[y.key] || (ages[x.key] == ages[y.key] && Less(x.key, y.key))
  }

  function OlderOrder(ages: map<string, int>): (Entry, Entry) -> bool {
    (x, y) => Older(ages, x, y)
  }

  lemma OlderIsWeak(ages: map<string, int>)
    ensures WeakOrder(OlderOrder(ages))
  {
    forall x: Entry, y: Entry, z: Entry
      ensures Older(ages, x, y) ==> !Older(ages, y, x)
      ensures !Older(ages, y, x) && !Older(ages, z, y) ==> !Older(ages, z, x)
    {
      LessIsTotalOrder(x.key, y.key, z.key);
      LessIsTotalOrder(z.key, x.key, y.key);
      LessIsTotalOrder(y.key, z.key, x.key);
    }
  }

  /** With distinct keys the age table dates each entry by its own timestamp. */
  lemma AgesDate(parse: Parser, es: seq<Entry>, ages: map<string, int>, e: Entry)
    requires DistinctKeys(es) && DatesByLast(parse, es, ages) && e in es
    ensures e.key in ages <==> Datable(parse, e)
    ensures e.key in ages ==> parse(e.lastModified) == Some(ages[e.key])
  {
    DistinctKeysDate(parse, es, e);
    assert (if e.key in ages then Some(ages[e.key]) else None) == AgeOf(parse, es, e.key);
  }

  lemma SortedByAges(parse: Parser, all: seq<Entry>, es: seq<Entry>, ages: map<string, int>, s: seq<Entry>)
    requires DistinctKeys(all) && DatesByLast(parse, all, ages) && DistinctKeys(es) && forall e <- es :: e in all
    requires multiset(s) == multiset(es) && NoInversions(s, OlderOrder(ages))
    ensures Sorted(parse, es, s)
  {
    SameMembers(s, es);
    DistinctKeysPermute(es, s);
    forall i, j | 0 <= i < j < |s| ensures !Order(parse)(s[j], s[i]) {
      assert !OlderOrder(ages)(s[j], s[i]);
      assert s[i] in es && s[j] in es;
      AgesDate(parse, all, ages, s[i]);
      AgesDate(parse, all, ages, s[j]);
    }
  }

  method TotalSize(es: seq<Entry>) returns (total: int)
    ensures total == Sum(es, SizeOf())
  {
    total := 0;
    for i := 0 to |es|
      invariant total == Sum(es[..i], SizeOf())
    {
      total := total + es[i].size;
      assert es[..i + 1] == es[..i] + [es[i]];
      SumConcat(es[..i], [es[i]], SizeOf());
    }
    assert es[..|es|] == es;
  }

  /** Some sort of the entries by age, and its prefix that goes while the rest is over the limit. */
  ghost predicate Evicts(ages: map<string, int>, w: Entry -> int, limit: int, es: seq<Entry>, victims: seq<Entry>) {
    exists s: seq<Entry> ::
      && multiset(s) == multiset(es) && NoInversions(s, OlderOrder(ages))
      && victims <= s && StopsAt(ages, w, limit, s, |victims|)
  }

  lemma FittingStops(ages: map<string, int>, w: Entry -> int, limit: int, s: seq<Entry>)
    requires Sum(s, w) <= limit
    ensures StopsAt(ages, w, limit, s, 0)
  {
    assert s[0..] == s;
  }

  lemma EvictsDated(ages: map<string, int>, w: Entry -> int, limit: int, es: seq<Entry>, victims: seq<Entry>)
    requires Evicts(ages, w, limit, es, victims)
    ensures forall e <- victims :: e in es && e.key in ages
  {
    var s: seq<Entry> :|
      && multiset(s) == multiset(es) && NoInversions(s, OlderOrder(ages))
      && victims <= s && StopsAt(ages, w, limit, s, |victims|);
    SameMembers(s, es);
    forall e | e in victims ensures e in es && e.key in ages {
      var i :| 0 <= i < |victims| && victims[i] == e;
      assert s[i] == e;
    }
  }

  /** With distinct keys, exactly the entries in excess go. */
  lemma EvictsIsExcess(parse: Parser, w: Entry -> int, limit: int, all: seq<Entry>, es: seq<Entry>,
      ages: map<string, int>, victims: seq<Entry>)
    requires DistinctKeys(all) && DatesByLast(parse, all, ages) && DistinctKeys(es) && forall e <- es :: e in all
    requires Evicts(ages, w, limit, es, victims)
    ensures forall e: Entry :: e in victims <==> e in es && Excess(parse, w, limit, es, e)
  {
    var s: seq<Entry> :|
      && multiset(s) == multiset(es) && NoInversions(s, OlderOrder(ages))
      && victims <= s && StopsAt(ages, w, limit, s, |victims|);
    SortedByAges(parse, all, es, ages, s);
    TakenIsExcess(parse, w, limit, all, es, ages, s, victims);
  }

  /** The oldest entries, as many as it takes to bring the total within the limit. */
  method OldestFirst(limit: int, es: seq<Entry>, ages: map<string, int>, ghost parse: Parser)
      returns (victims: seq<Entry>)
    ensures Evicts(ages, SizeOf(), limit, es, victims)
    ensures DistinctKeys(es) && DatesByLast(parse, es, ages) ==>
              forall e: Entry :: e in victims <==> e in es && Excess(parse, SizeOf(), limit, es, e)
  {
    var total := TotalSize(es);
    OlderIsWeak(ages);
    var sorted := Sort(es, OlderOrder(ages));
    SumPermutes(es, sorted, SizeOf());
    victims := [];
    if total > limit {
      victims := TakeWhileOver(limit, sorted, ages, total);
    } else {
      FittingStops(ages, SizeOf(), limit, sorted);
    }
    if DistinctKeys(es) && DatesByLast(parse, es, ages) {
      EvictsIsExcess(parse, SizeOf(), limit, es, es, ages, victims);
    }
  }

  /** The first v entries are dated, and each was evicted while the rest was still over the limit. */
  ghost predicate Taken(ages: map<string, int>, w: Entry -> int, limit: int, s: seq<Entry>, v: nat) {
    v <= |s| && forall j | 0 <= j < v :: s[j].key in ages && Sum(s[j..], w) > limit
  }

  /** Where evicting stops when only keys in the age table may go. */
  ghost predicate StopsAt(ages: map<string, int>, w: Entry -> int, limit: int, s: seq<Entry>, v: nat) {
    Taken(ages, w, limit, s, v) && (v == |s| || s[v].key !in ages || Sum(s[v..], w) <= limit)
  }

  lemma TakeOneMore(ages: map<string, int>, w: Entry -> int, limit: int, s: seq<Entry>, v: nat)
    requires Taken(ages, w, limit, s, v) && v < |s| && s[v].key in ages && Sum(s[v..], w) > limit
    ensures Taken(ages, w, limit, s, v + 1)
    ensures Sum(s[v + 1..], w) == Sum(s[v..], w) - w(s[v])
    ensures s[..v + 1] == s[..v] + [s[v]]
  {
  }

  /** The loop over the sorted list. Keys without an age sort last, so passing over them is stopping. */
  method TakeWhileOver(limit: int, s: seq<Entry>, ages: map<string, int>, total0: int) returns (victims: seq<Entry>)
    requires total0 == Sum(s, SizeOf()) && NoInversions(s, OlderOrder(ages))
    ensures StopsAt(ages, SizeOf(), limit, s, |victims|) && victims == s[..|victims|]
  {
    var total := total0;
    ghost var v := 0;
    victims := [];
    assert s[0..] == s;
    for i := 0 to |s|
      invariant v <= i && victims == s[..v] && total == Sum(s[v..], SizeOf())
      invariant Taken(ages, SizeOf(), limit, s, v)
      invariant v < i ==> s[v].key !in ages
    {
      if total <= limit {
        break;
      }
      if s[i].key in ages {
        assert v == i;
        TakeOneMore(ages, SizeOf(), limit, s, i);
        victims := victims + [s[i]];
        total := total - s[i].size;
        v := v + 1;
      }
    }
  }

  lemma TakenIsExcess(parse: Parser, w: Entry -> int, limit: int, all: seq<Entry>, es: seq<Entry>,
      ages: map<string, int>, s: seq<Entry>, victims: seq<Entry>)
    requires DistinctKeys(all) && DatesByLast(parse, all, ages) && forall e <- es :: e in all
    requires Sorted(parse, es, s) && victims <= s
    requires StopsAt(ages, w, limit, s, |victims|)
    ensures CutAt(parse, w, limit, s, |victims|)
    ensures forall e: Entry :: e in victims <==> e in es && Excess(parse, w, limit, es, e)
  {
    var v := |victims|;
    SameMembers(s, es);
    forall i | 0 <= i < |s| ensures s[i].key in ages <==> Datable(parse, s[i]) {
      assert s[i] in es;
      AgesDate(parse, all, ages, s[i]);
    }
    forall i: nat | i < |s| ensures i < v <==> Excess(parse, w, limit, es, s[i]) {
      CutIsExcess(parse, w, limit, es, s, v, i);
    }
    forall e: Entry ensures e in victims <==> e in es && Excess(parse, w, limit, es, e) {
      if e in es && Excess(parse, w, limit, es, e) {
        var i: nat :| i < |s| && s[i] == e;
        assert victims[i] == e;
      }
    }
  }

  // ---------------------------------------------------------------------------------------
  // Version counts
  // ---------------------------------------------------------------------------------------

  lemma GroupMember(es: seq<Entry>, g: Entry -> string, name: string, e: Entry)
    ensures e in Group(es, g, name) <==> e in es && g(e) == name
  {
  }

  lemma {:induction false} GroupDistinct(es: seq<Entry>, g: Entry -> string, name: string)
    requires DistinctKeys(es)
    ensures DistinctKeys(Group(es, g, name))
  {
    if es == [] {
    } else {
      var n := |es| - 1;
      GroupDistinct(es[..n], g, name);
      forall e | e in Group(es[..n], g, name) ensures e.key != es[n].key {
        GroupMember(es[..n], g, name, e);
      }
    }
  }

  /** The oldest members of one group beyond the number to keep. */
  method GroupOverflow(limit: int, group: seq<Entry>, ages: map<string, int>, ghost all: seq<Entry>,
      ghost parse: Parser)
      returns (victims: seq<Entry>)
    requires limit > 0
    ensures Evicts(ages, One(), limit, group, victims)
    ensures |group| <= limit ==> victims == []
    ensures DistinctKeys(all) && DatesByLast(parse, all, ages) && DistinctKeys(group) && (forall e <- group :: e in all)
              ==>
              && (forall e: Entry :: e in victims <==> e in group && Excess(parse, One(), limit, group, e))
              && (|group| > limit ==> var u := Sum(group, Undatable(parse));
                                      |group| - |victims| == if u > limit then u else limit)
  {
    OlderIsWeak(ages);
    var sorted := Sort(group, OlderOrder(ages));
    SameMembers(sorted, group);
    victims := [];
    if |group| > limit {
      victims := TakeOverflow(limit, sorted, ages);
    } else {
      SumOne(sorted);
      FittingStops(ages, One(), limit, sorted);
    }
    if DistinctKeys(all) && DatesByLast(parse, all, ages) && DistinctKeys(group) && (forall e <- group :: e in all) {
      OverflowIsExcess(parse, limit, all, group, ages, sorted, victims);
    }
  }

  /** With distinct keys, exactly the members in excess go, and the larger of the limit and the
      number of undatable members stays. */
  lemma OverflowIsExcess(parse: Parser, limit: int, all: seq<Entry>, group: seq<Entry>, ages: map<string, int>,
      sorted: seq<Entry>, victims: seq<Entry>)
    requires DistinctKeys(all) && DatesByLast(parse, all, ages) && DistinctKeys(group) && forall e <- group :: e in all
    requires multiset(sorted) == multiset(group) && NoInversions(sorted, OlderOrder(ages)) && limit > 0
    requires victims <= sorted && StopsAt(ages, One(), limit, sorted, |victims|)
    ensures forall e: Entry :: e in victims <==> e in group && Excess(parse, One(), limit, group, e)
    ensures |group| > limit ==>
              var u := Sum(group, Undatable(parse)); |group| - |victims| == if u > limit then u else limit
  {
    SameMembers(sorted, group);
    SortedByAges(parse, all, group, ages, sorted);
    TakenIsExcess(parse, One(), limit, all, group, ages, sorted, victims);
    if |group| > limit { CutKeeps(parse, limit, group, sorted, |victims|); }
  }

  method TakeOverflow(limit: int, s: seq<Entry>, ages: map<string, int>) returns (victims: seq<Entry>)
    requires limit < |s| && NoInversions(s, OlderOrder(ages))
    ensures StopsAt(ages, One(), limit, s, |victims|) && victims == s[..|victims|]
  {
    var overflow := |s| - limit;
    ghost var v := 0;
    victims := [];
    for i := 0 to |s|
      invariant v <= i && victims == s[..v] && overflow == |s| - limit - v && overflow >= 0
      invariant forall j | 0 <= j < v :: s[j].key in ages
      invariant v < i ==> s[v].key !in ages
    {
      if s[i].key in ages {
        if overflow == 0 {
          break;
        }
        assert v == i && s[..i + 1] == s[..i] + [s[i]];
        victims := victims + [s[i]];
        overflow := overflow - 1;
        v := v + 1;
      }
    }
    forall j | 0 <= j < |s| ensures Sum(s[j..], One()) == |s| - j {
      SumOne(s[j..]);
    }
  }

  /** The table of groups built so far. */
  ghost predicate GroupsOf(es: seq<Entry>, g: Entry -> string, groups: map<string, seq<Entry>>) {
    && "" !in groups && (forall n <- groups :: groups[n] != [])
    && forall n: string | n != "" :: (if n in groups then groups[n] else []) == Group(es, g, n)
  }

  lemma GroupsOfMore(es: seq<Entry>, i: nat, g: Entry -> string, groups: map<string, seq<Entry>>)
    requires i < |es| && GroupsOf(es[..i], g, groups)
    ensures var key := g(es[i]);
            GroupsOf(es[..i + 1], g,
              if key == "" then groups else groups[key := (if key in groups then groups[key] else []) + [es[i]]])
  {
    assert es[..i + 1][..i] == es[..i];
    forall n: string ensures Group(es[..i + 1], g, n) ==
        Group(es[..i], g, n) + if g(es[i]) == n then [es[i]] else [] {
    }
  }

  method GroupEntries(es: seq<Entry>, g: Entry -> string) returns (groups: map<string, seq<Entry>>)
    ensures GroupsOf(es, g, groups)
  {
    groups := map[];
    for i := 0 to |es|
      invariant GroupsOf(es[..i], g, groups)
    {
      var key := g(es[i]);
      GroupsOfMore(es, i, g, groups);
      if key != "" {
        groups := groups[key := (if key in groups then groups[key] else []) + [es[i]]];
      }
    }
    assert es[..|es|] == es;
  }

  /** The groups' victims, one group after the other. */
  ghost predicate EvictsGroups(ages: map<string, int>, g: Entry -> string, limit: int, es: seq<Entry>,
      names: seq<string>, victims: seq<Entry>)
    decreases |names|
  {
    if names == [] then victims == []
    else
      var n := |names| - 1;
      exists a: seq<Entry>, b: seq<Entry> ::
        && EvictsGroups(ages, g, limit, es, names[..n], a)
        && Evicts(ages, One(), limit, Group(es, g, names[n]), b) && victims == a + b
  }

  lemma {:induction false} EvictsNextGroup(ages: map<string, int>, g: Entry -> string, limit: int, es: seq<Entry>,
      names: seq<string>,
      a: seq<Entry>, name: string, b: seq<Entry>)
    requires EvictsGroups(ages, g, limit, es, names, a) && Evicts(ages, One(), limit, Group(es, g, name), b)
    ensures EvictsGroups(ages, g, limit, es, names + [name], a + b)
  {
    assert (names + [name])[..|names + [name]| - 1] == names;
  }

  lemma {:induction false} EvictsGroupsDated(ages: map<string, int>, g: Entry -> string, limit: int, es: seq<Entry>,
      names: seq<string>, victims: seq<Entry>)
    requires EvictsGroups(ages, g, limit, es, names, victims)
    ensures forall e <- victims :: e in es && e.key in ages
    decreases |names|
  {
    if names == [] {
    } else {
      var n := |names| - 1;
      var a: seq<Entry>, b: seq<Entry> :|
        && EvictsGroups(ages, g, limit, es, names[..n], a)
        && Evicts(ages, One(), limit, Group(es, g, names[n]), b) && victims == a + b;
      EvictsGroupsDated(ages, g, limit, es, names[..n], a);
      EvictsDated(ages, One(), limit, Group(es, g, names[n]), b);
      forall e | e in b ensures e in es {
        GroupMember(es, g, names[n], e);
      }
    }
  }

  /** The names of the groups, each once, in the order in which a map happens to be walked. */
  ghost predicate GroupNames(es: seq<Entry>, g: Entry -> string, names: seq<string>) {
    && (forall i, j | 0 <= i < j < |names| :: names[i] != names[j])
    && (forall n: string :: n in names <==> n != "" && exists e <- es :: g(e) == n)
  }

  /** If a group's victims are its members over a limit, so are the groups' victims taken together. */
  lemma {:induction false} EvictsGroupsMember(ages: map<string, int>, g: Entry -> string, limit: int, es: seq<Entry>,
      names: seq<string>, victims: seq<Entry>, e: Entry, over: bool)
    requires EvictsGroups(ages, g, limit, es, names, victims)
    requires forall name: string, b: seq<Entry> | Evicts(ages, One(), limit, Group(es, g, name), b) ::
               e in b <==> g(e) == name && over
    ensures e in victims <==> g(e) in names && over
    decreases |names|
  {
    if names == [] {
    } else {
      var n := |names| - 1;
      var a: seq<Entry>, b: seq<Entry> :|
        && EvictsGroups(ages, g, limit, es, names[..n], a)
        && Evicts(ages, One(), limit, Group(es, g, names[n]), b) && victims == a + b;
      EvictsGroupsMember(ages, g, limit, es, names[..n], a, e, over);
      SnocMember(names, g(e));
      ConcatMember(a, b, e);
    }
  }

  /** With distinct keys, exactly the members in excess in their groups go. */
  lemma {:induction false} EvictsGroupsIsExcess(parse: Parser, ages: map<string, int>, g: Entry -> string, limit: int,
      es: seq<Entry>, names: seq<string>, victims: seq<Entry>, e: Entry)
    requires DistinctKeys(es) && DatesByLast(parse, es, ages) && EvictsGroups(ages, g, limit, es, names, victims)
    ensures e in victims <==> e in es && g(e) in names && Excess(parse, One(), limit, Group(es, g, g(e)), e)
  {
    var over := e in es && Excess(parse, One(), limit, Group(es, g, g(e)), e);
    forall name: string, b: seq<Entry> | Evicts(ages, One(), limit, Group(es, g, name), b)
      ensures e in b <==> g(e) == name && over
    {
      OneGroupIsExcess(parse, ages, g, limit, es, name, b, e);
    }
    EvictsGroupsMember(ages, g, limit, es, names, victims, e, over);
  }

  lemma OneGroupIsExcess(parse: Parser, ages: map<string, int>, g: Entry -> string, limit: int, es: seq<Entry>,
      name: string, victims: seq<Entry>, e: Entry)
    requires DistinctKeys(es) && DatesByLast(parse, es, ages)
    requires Evicts(ages, One(), limit, Group(es, g, name), victims)
    ensures e in victims <==> e in es && g(e) == name && Excess(parse, One(), limit, Group(es, g, g(e)), e)
  {
    forall x: Entry ensures x in Group(es, g, name) <==> x in es && g(x) == name {
      GroupMember(es, g, name, x);
    }
    GroupDistinct(es, g, name);
    EvictsIsExcess(parse, One(), limit, es, Group(es, g, name), ages, victims);
  }

  lemma GroupTableNames(es: seq<Entry>, g: Entry -> string, groups: map<string, seq<Entry>>, n: string)
    requires GroupsOf(es, g, groups)
    ensures n in groups <==> n != "" && exists e <- es :: g(e) == n
  {
    if n in groups {
      GroupMember(es, g, n, groups[n][0]);
    }
    forall e | e in es && g(e) == n && n != "" ensures n in groups {
      GroupMember(es, g, n, e);
    }
  }

  method VersionOverflow(limit: int, g: Entry -> string, es: seq<Entry>, ages: map<string, int>, ghost parse: Parser)
      returns (victims: seq<Entry>, ghost names: seq<string>)
    requires limit > 0
    ensures GroupNames(es, g, names) && EvictsGroups(ages, g, limit, es, names, victims)
    ensures DistinctKeys(es) && DatesByLast(parse, es, ages) ==>
              forall e: Entry :: e in victims <==>
                e in es && g(e) != "" && Excess(parse, One(), limit, Group(es, g, g(e)), e)
  {
    var groups := GroupEntries(es, g);
    victims, names := WalkGroups(limit, g, es, ages, groups, parse);
    forall n: string ensures n in names <==> n != "" && exists e <- es :: g(e) == n {
      GroupTableNames(es, g, groups, n);
    }
    if DistinctKeys(es) && DatesByLast(parse, es, ages) {
      forall e: Entry
        ensures e in victims <==> e in es && g(e) in names && Excess(parse, One(), limit, Group(es, g, g(e)), e)
      {
        EvictsGroupsIsExcess(parse, ages, g, limit, es, names, victims, e);
      }
    }
  }

  /** Where the loop over the table of groups stands: these groups are done, those are still to come. */
  ghost predicate Walked(ages: map<string, int>, g: Entry -> string, limit: int, es: seq<Entry>, all: set<string>,
      todo: set<string>, names: seq<string>, victims: seq<Entry>) {
    && EvictsGroups(ages, g, limit, es, names, victims)
    && (forall i, j | 0 <= i < j < |names| :: names[i] != names[j])
    && (forall n: string :: n in names <==> n in all && n !in todo)
  }

  lemma {:induction false} WalkedStep(ages: map<string, int>, g: Entry -> string, limit: int, es: seq<Entry>,
      all: set<string>,
      todo: set<string>, names: seq<string>, victims: seq<Entry>, name: string, more: seq<Entry>)
    requires Walked(ages, g, limit, es, all, todo, names, victims) && name in todo && todo <= all
    requires Evicts(ages, One(), limit, Group(es, g, name), more)
    ensures Walked(ages, g, limit, es, all, todo - {name}, names + [name], victims + more)
  {
    EvictsNextGroup(ages, g, limit, es, names, victims, name, more);
    assert name !in names;
  }

  /** The loop over the table of groups. */
  method WalkGroups(limit: int, ghost g: Entry -> string, ghost es: seq<Entry>, ages: map<string, int>,
      groups: map<string, seq<Entry>>, ghost parse: Parser)
      returns (victims: seq<Entry>, ghost names: seq<string>)
    requires limit > 0 && GroupsOf(es, g, groups)
    ensures Walked(ages, g, limit, es, groups.Keys, {}, names, victims)
  {
    victims, names := [], [];
    var todo := groups.Keys;
    while todo != {}
      invariant todo <= groups.Keys && Walked(ages, g, limit, es, groups.Keys, todo, names, victims)
      decreases todo
    {
      var name :| name in todo;
      assert groups[name] == Group(es, g, name);
      var more := GroupOverflow(limit, groups[name], ages, es, parse);
      WalkedStep(ages, g, limit, es, groups.Keys, todo, names, victims, name, more);
      victims, names := victims + more, names + [name];
      todo := todo - {name};
    }
  }

  // ---------------------------------------------------------------------------------------
  // Plan
  // ---------------------------------------------------------------------------------------

  predicate Chosen(victims: map<string, Entry>, e: Entry) {
    e.key in victims && victims[e.key] == e
  }

  /** The victims map as it grows: each entry under its own key, all from the list, all of dated keys. */
  ghost predicate ChosenFrom(es: seq<Entry>, ages: map<string, int>, victims: map<string, Entry>) {
    forall k <- victims :: victims[k].key == k && victims[k] in es && k in ages
  }

  /** The victims map after these entries are written to it, one after the other. */
  function Overwritten(victims: map<string, Entry>, more: seq<Entry>): map<string, Entry> {
    if more == [] then victims
    else
      var n := |more| - 1;
      Overwritten(victims, more[..n])[more[n].key := more[n]]
  }

  lemma {:induction false} OverwrittenFrom(es: seq<Entry>, ages: map<string, int>, victims: map<string, Entry>,
      more: seq<Entry>)
    requires ChosenFrom(es, ages, victims) && forall e <- more :: e in es && e.key in ages
    ensures ChosenFrom(es, ages, Overwritten(victims, more))
    ensures DistinctKeys(es) ==>
              forall e: Entry :: Chosen(Overwritten(victims, more), e) <==> Chosen(victims, e) || e in more
  {
    if more == [] {
    } else {
      var n := |more| - 1;
      OverwrittenFrom(es, ages, victims, more[..n]);
      assert more == more[..n] + [more[n]];
    }
  }

  method Choose(victims0: map<string, Entry>, more: seq<Entry>) returns (victims: map<string, Entry>)
    ensures victims == Overwritten(victims0, more)
  {
    victims := victims0;
    for i := 0 to |more|
      invariant victims == Overwritten(victims0, more[..i])
    {
      victims := victims[more[i].key := more[i]];
      assert more[..i + 1][..i] == more[..i];
    }
    assert more[..|more|] == more;
  }

  /** The last record of every key over age. */
  ghost predicate ChosenByAge(rule: Rule, parse: Parser, now: int, es: seq<Entry>, victims: map<string, Entry>) {
    forall e: Entry :: Chosen(victims, e) <==> AgeChoice(rule.maxAge, parse, now, es, e)
  }

  /** The last record so far of every key over age. */
  ghost predicate LastOverAge(maxAge: int, now: int, es: seq<Entry>, ages: map<string, int>,
      victims: map<string, Entry>) {
    forall k: string :: (if k in victims then Some(victims[k]) else None) ==
      if k in ages && now - ages[k] > maxAge then LastWith(es, k) else None
  }

  lemma LastOverAgeIsChoice(rule: Rule, parse: Parser, now: int, es: seq<Entry>, ages: map<string, int>,
      victims: map<string, Entry>)
    requires DatesByLast(parse, es, ages) && rule.maxAge > 0 && LastOverAge(rule.maxAge, now, es, ages, victims)
    ensures ChosenFrom(es, ages, victims) && ChosenByAge(rule, parse, now, es, victims)
  {
    forall k | k in victims ensures victims[k].key == k && victims[k] in es && k in ages {
      assert LastWith(es, k) == Some(victims[k]);
    }
    forall e: Entry ensures Chosen(victims, e) <==> AgeChoice(rule.maxAge, parse, now, es, e) {
      assert (if e.key in ages then Some(ages[e.key]) else None) == AgeOf(parse, es, e.key);
    }
  }

  method ChooseByAge(rule: Rule, ghost parse: Parser, now: int, es: seq<Entry>, ages: map<string, int>)
      returns (victims: map<string, Entry>)
    requires DatesByLast(parse, es, ages)
    ensures ChosenFrom(es, ages, victims) && AgeRun(rule, now, es, ages, victims)
    ensures ChosenByAge(rule, parse, now, es, victims)
  {
    victims := map[];
    if rule.maxAge > 0 {
      for i := 0 to |es|
        invariant LastOverAge(rule.maxAge, now, es[..i], ages, victims)
      {
        assert es[..i + 1][..i] == es[..i];
        if es[i].key in ages && now - ages[es[i].key] > rule.maxAge {
          victims := victims[es[i].key := es[i]];
        }
      }
      assert es[..|es|] == es;
      LastOverAgeIsChoice(rule, parse, now, es, ages, victims);
    }
  }

  /** The age rule's victims: the last records of the keys over age. */
  ghost predicate AgeRun(rule: Rule, now: int, es: seq<Entry>, ages: map<string, int>, c: map<string, Entry>) {
    if rule.maxAge > 0 then LastOverAge(rule.maxAge, now, es, ages, c) else c == map[]
  }

  /** The size rule's victims, written over the map. */
  ghost predicate SizeRun(rule: Rule, es: seq<Entry>, ages: map<string, int>, b: map<string, Entry>,
      c: map<string, Entry>) {
    if rule.maxTotalSize <= 0 then c == b
    else exists more: seq<Entry> :: Evicts(ages, SizeOf(), rule.maxTotalSize, es, more) && c == Overwritten(b, more)
  }

  /** The count rule's victims, written over the map. */
  ghost predicate CountRun(rule: Rule, es: seq<Entry>, ages: map<string, int>, b: map<string, Entry>,
      c: map<string, Entry>) {
    if rule.maxVersionCount <= 0 || rule.groupKey.None? then c == b
    else exists names: seq<string>, more: seq<Entry> ::
      && GroupNames(es, rule.groupKey.value, names)
      && EvictsGroups(ages, rule.groupKey.value, rule.maxVersionCount, es, names, more)
      && c == Overwritten(b, more)
  }

  /** The three rules in turn, whatever the sorts make of ties and whatever order groups come in. */
  ghost predicate VictimsRun(rule: Rule, now: int, es: seq<Entry>, ages: map<string, int>, c: map<string, Entry>) {
    exists a: map<string, Entry>, b: map<string, Entry> ::
      AgeRun(rule, now, es, ages, a) && SizeRun(rule, es, ages, a, b) && CountRun(rule, es, ages, b, c)
  }

  /** The victims in key order. */
  ghost predicate ListsVictims(c: map<string, Entry>, plan: seq<Entry>) {
    StrictlySorted(plan) && forall e: Entry :: e in plan <==> Chosen(c, e)
  }

  /** A plan that planning these entries, repeated keys included, can return. */
  ghost predicate PlanRun(rule: Rule, parse: Parser, now: int, es: seq<Entry>, plan: seq<Entry>) {
    exists ages: map<string, int>, c: map<string, Entry> ::
      DatesByLast(parse, es, ages) && VictimsRun(rule, now, es, ages, c) && ListsVictims(c, plan)
  }

  lemma SizeRunFrom(rule: Rule, es: seq<Entry>, ages: map<string, int>, b: map<string, Entry>, c: map<string, Entry>)
    requires ChosenFrom(es, ages, b) && SizeRun(rule, es, ages, b, c)
    ensures ChosenFrom(es, ages, c)
  {
    if rule.maxTotalSize > 0 {
      var more: seq<Entry> :| Evicts(ages, SizeOf(), rule.maxTotalSize, es, more) && c == Overwritten(b, more);
      EvictsDated(ages, SizeOf(), rule.maxTotalSize, es, more);
      OverwrittenFrom(es, ages, b, more);
    }
  }

  lemma {:induction false} CountRunFrom(rule: Rule, es: seq<Entry>, ages: map<string, int>, b: map<string, Entry>,
      c: map<string, Entry>)
    requires ChosenFrom(es, ages, b) && CountRun(rule, es, ages, b, c)
    ensures ChosenFrom(es, ages, c)
  {
    if rule.maxVersionCount > 0 && rule.groupKey.Some? {
      var g, limit := rule.groupKey.value, rule.maxVersionCount;
      var names: seq<string>, more: seq<Entry> :|
        GroupNames(es, g, names) && EvictsGroups(ages, g, limit, es, names, more) && c == Overwritten(b, more);
      EvictsGroupsDated(ages, g, limit, es, names, more);
      OverwrittenFrom(es, ages, b, more);
    }
  }

  lemma AgeRunFrom(rule: Rule, now: int, es: seq<Entry>, ages: map<string, int>, c: map<string, Entry>)
    requires AgeRun(rule, now, es, ages, c)
    ensures ChosenFrom(es, ages, c)
  {
    forall k | k in c ensures c[k].key == k && c[k] in es && k in ages {
      assert LastWith(es, k) == Some(c[k]);
    }
  }

  /** Only entries of dated keys can go. */
  lemma PlanRunDates(rule: Rule, parse: Parser, now: int, es: seq<Entry>, plan: seq<Entry>, e: Entry)
    requires PlanRun(rule, parse, now, es, plan) && e in plan
    ensures e in es && AgeOf(parse, es, e.key).Some?
  {
    var ages: map<string, int>, c: map<string, Entry> :|
      DatesByLast(parse, es, ages) && VictimsRun(rule, now, es, ages, c) && ListsVictims(c, plan);
    var a: map<string, Entry>, b: map<string, Entry> :|
      AgeRun(rule, now, es, ages, a) && SizeRun(rule, es, ages, a, b) && CountRun(rule, es, ages, b, c);
    AgeRunFrom(rule, now, es, ages, a);
    SizeRunFrom(rule, es, ages, a, b);
    CountRunFrom(rule, es, ages, b, c);
    assert Chosen(c, e);
    assert (if e.key in ages then Some(ages[e.key]) else None) == AgeOf(parse, es, e.key);
  }

  method ChooseBySize(rule: Rule, ghost parse: Parser, es: seq<Entry>, ages: map<string, int>,
      victims0: map<string, Entry>)
      returns (victims: map<string, Entry>)
    requires ChosenFrom(es, ages, victims0) && DatesByLast(parse, es, ages)
    ensures ChosenFrom(es, ages, victims) && SizeRun(rule, es, ages, victims0, victims)
    ensures DistinctKeys(es) ==>
              forall e: Entry :: Chosen(victims, e) <==>
                  Chosen(victims0, e) || (e in es && OverSize(rule, parse, es, e))
  {
    victims := victims0;
    if rule.maxTotalSize > 0 {
      var oldest := OldestFirst(rule.maxTotalSize, es, ages, parse);
      EvictsDated(ages, SizeOf(), rule.maxTotalSize, es, oldest);
      OverwrittenFrom(es, ages, victims0, oldest);
      victims := Choose(victims, oldest);
    }
  }

  method ChooseByCount(rule: Rule, ghost parse: Parser, es: seq<Entry>, ages: map<string, int>,
      victims0: map<string, Entry>)
      returns (victims: map<string, Entry>)
    requires ChosenFrom(es, ages, victims0) && DatesByLast(parse, es, ages)
    ensures ChosenFrom(es, ages, victims) && CountRun(rule, es, ages, victims0, victims)
    ensures DistinctKeys(es) ==>
              forall e: Entry :: Chosen(victims, e) <==>
                  Chosen(victims0, e) || (e in es && OverCount(rule, parse, es, e))
  {
    victims := victims0;
    if rule.maxVersionCount > 0 && rule.groupKey.Some? {
      var overflow, names := VersionOverflow(rule.maxVersionCount, rule.groupKey.value, es, ages, parse);
      EvictsGroupsDated(ages, rule.groupKey.value, rule.maxVersionCount, es, names, overflow);
      OverwrittenFrom(es, ages, victims0, overflow);
      victims := Choose(victims, overflow);
    }
  }

  /** The chosen entries in key order. */
  method SortedChoice(ghost es: seq<Entry>, ghost ages: map<string, int>, victims: map<string, Entry>)
      returns (result: seq<Entry>)
    requires ChosenFrom(es, ages, victims)
    ensures ListsVictims(victims, result)
  {
    var unsorted: seq<Entry> := [];
    var todo := victims.Keys;
    while todo != {}
      invariant todo <= victims.Keys
      invariant forall e: Entry :: e in unsorted <==> Chosen(victims, e) && e.key !in todo
      invariant DistinctKeys(unsorted)
      decreases todo
    {
      var k :| k in todo;
      unsorted := unsorted + [victims[k]];
      todo := todo - {k};
    }
    result := SortByKey(unsorted);
  }

  /** Of two readable entries the older goes first, and of two at one instant the one whose key comes first. */
  ghost predicate EvictsInOrder(parse: Parser, es: seq<Entry>, plan: seq<Entry>) {
    forall x <- es, y <- plan | parse(x.lastModified).Some? && parse(y.lastModified).Some? &&
        (var t, u := parse(x.lastModified).value, parse(y.lastModified).value;
         t < u || (t == u && (x.key < y.key || exists i | 0 <= i < |x.key| && i < |y.key| ::
           x.key[..i] == y.key[..i] && x.key[i] < y.key[i]))) ::
      x in plan
  }

  lemma PlanEvictsInOrder(rule: Rule, parse: Parser, now: int, es: seq<Entry>, plan: seq<Entry>)
    requires IsPlan(rule, parse, now, es, plan) && (rule.maxVersionCount <= 0 || rule.groupKey.None?)
    ensures EvictsInOrder(parse, es, plan)
  {
    forall x, y | x in es && y in plan && parse(x.lastModified).Some? && parse(y.lastModified).Some? &&
        (var t, u := parse(x.lastModified).value, parse(y.lastModified).value;
         t < u || (t == u && (x.key < y.key || exists i | 0 <= i < |x.key| && i < |y.key| ::
           x.key[..i] == y.key[..i] && x.key[i] < y.key[i])))
      ensures x in plan
    {
      OldestGoFirst(rule, parse, now, es, x, y);
    }
  }

  /** Whatever the entries, the result is a possible run of the three rules; with distinct keys it
      is the one plan there is, and under the age rule alone the last records of the keys over age. */
  method Plan(rule: Rule, parse: Parser, now: int, es: seq<Entry>) returns (result: seq<Entry>)
    ensures PlanRun(rule, parse, now, es, result)
    ensures DistinctKeys(es) ==> IsPlan(rule, parse, now, es, result)
    ensures rule.maxTotalSize <= 0 && (rule.maxVersionCount <= 0 || rule.groupKey.None?) ==>
              forall e: Entry :: e in result <==> AgeChoice(rule.maxAge, parse, now, es, e)
    ensures DistinctKeys(es) && rule.maxTotalSize <= 0 && (rule.maxVersionCount <= 0 || rule.groupKey.None?) ==>
              forall e: Entry :: e in result <==>
                e in es && rule.maxAge > 0 && var t := parse(e.lastModified); t.Some? && now - t.value > rule.maxAge
    ensures DistinctKeys(es) && (rule.maxVersionCount <= 0 || rule.groupKey.None?) ==>
              EvictsInOrder(parse, es, result)
  {
    var ages := ParseAges(parse, es);
    var byAge := ChooseByAge(rule, parse, now, es, ages);
    var bySize := ChooseBySize(rule, parse, es, ages, byAge);
    var victims := ChooseByCount(rule, parse, es, ages, bySize);
    result := SortedChoice(es, ages, victims);
    assert VictimsRun(rule, now, es, ages, victims);
    if DistinctKeys(es) {
      forall e: Entry ensures AgeChoice(rule.maxAge, parse, now, es, e) <==> e in es && OverAge(rule, parse, now, e) {
        AgeChoiceIsOverAge(rule, parse, now, es, e);
      }
      if rule.maxVersionCount <= 0 || rule.groupKey.None? { PlanEvictsInOrder(rule, parse, now, es, result); }
    }
  }

  // ---------------------------------------------------------------------------------------
  // Entries without a readable timestamp
  // ---------------------------------------------------------------------------------------

  function PairOnly(x: Entry, y: Entry): Entry -> string {
    e => if e == x || e == y then "pair" else ""
  }

  lemma AgesExist(parse: Parser, es: seq<Entry>) returns (ages: map<string, int>)
    ensures DatesByLast(parse, es, ages)
  {
    var keys := set e | e in es :: e.key;
    ages := map k | k in keys && AgeOf(parse, es, k).Some? :: AgeOf(parse, es, k).value;
    forall k: string ensures (if k in ages then Some(ages[k]) else None) == AgeOf(parse, es, k) {
      if AgeOf(parse, es, k).Some? {
        var e :| e in es && e.key == k;
        assert k in keys;
      }
    }
  }

  /** A list of entries that holds both, rearranged so that y comes second to last. */
  lemma SecondToLast(group: seq<Entry>, x: Entry, y: Entry) returns (s: seq<Entry>)
    requires x in group && y in group && x != y
    ensures multiset(s) == multiset(group) && |s| == |group| >= 2 && s[|s| - 2] == y
  {
    var i: nat :| i < |group| && group[i] == y;
    var mid := MovedLast(group, i);
    MovedLastPermutes(group, i);
    MovedLastEnds(group, i);
    SameMembers(mid, group);
    var j: nat :| j < |mid| && mid[j] == x;
    s := MovedLast(mid, j);
    MovedLastPermutes(mid, j);
    MovedLastEnds(mid, j);
  }

  /** Records of one key tie, so that any of them may be kept. */
  lemma TiedRecordsGo(ages: map<string, int>, k: string, group: seq<Entry>, s: seq<Entry>)
    requires k in ages && |s| >= 2 && multiset(s) == multiset(group) && forall e <- group :: e.key == k
    ensures Evicts(ages, One(), 1, group, s[..|s| - 1])
  {
    SameMembers(s, group);
    forall i, j | 0 <= i < j < |s| ensures !OlderOrder(ages)(s[j], s[i]) {
      assert s[i] in group && s[j] in group;
      LessIsTotalOrder(k, k, k);
    }
    forall j | 0 <= j < |s| ensures Sum(s[j..], One()) == |s| - j && s[j].key in ages {
      SumOne(s[j..]);
      assert s[j] in group;
    }
    assert StopsAt(ages, One(), 1, s, |s[..|s| - 1]|);
  }

  lemma {:induction false} OverwrittenOneKey(k: string, more: seq<Entry>)
    requires more != [] && forall e <- more :: e.key == k
    ensures Overwritten(map[], more) == map[k := more[|more| - 1]]
  {
    var n := |more| - 1;
    if n == 0 {
      assert Overwritten(map[], more[..n]) == map[];
    } else {
      OverwrittenOneKey(k, more[..n]);
    }
  }

  lemma PairNames(es: seq<Entry>, x: Entry, y: Entry)
    requires x in es
    ensures GroupNames(es, PairOnly(x, y), ["pair"])
  {
    assert PairOnly(x, y)(x) == "pair";
  }

  /** The count rule where there is only one group. */
  lemma {:induction false} OneGroupRun(rule: Rule, es: seq<Entry>, ages: map<string, int>, name: string,
      more: seq<Entry>)
    requires rule.maxVersionCount > 0 && rule.groupKey.Some? && GroupNames(es, rule.groupKey.value, [name])
    requires Evicts(ages, One(), rule.maxVersionCount, Group(es, rule.groupKey.value, name), more)
    ensures CountRun(rule, es, ages, map[], Overwritten(map[], more))
  {
    OneGroupEvicts(ages, rule.groupKey.value, rule.maxVersionCount, es, name, more);
  }

  lemma {:induction false} OneGroupEvicts(ages: map<string, int>, g: Entry -> string, limit: int, es: seq<Entry>,
      name: string, more: seq<Entry>)
    requires Evicts(ages, One(), limit, Group(es, g, name), more)
    ensures EvictsGroups(ages, g, limit, es, [name], more)
  {
    EvictsNextGroup(ages, g, limit, es, [], [], name, more);
    assert [] + [name] == [name] && [] + more == more;
  }

  /** The records of the two, sorted so that y is the last to go. */
  lemma PairEvicts(es: seq<Entry>, ages: map<string, int>, x: Entry, y: Entry) returns (more: seq<Entry>)
    requires x in es && y in es && x.key == y.key && y.key in ages && x != y
    ensures Evicts(ages, One(), 1, Group(es, PairOnly(x, y), "pair"), more)
    ensures Overwritten(map[], more) == map[y.key := y]
  {
    var group := Group(es, PairOnly(x, y), "pair");
    forall e: Entry ensures e in group <==> e in es && (e == x || e == y) {
      GroupMember(es, PairOnly(x, y), "pair", e);
    }
    var s := SecondToLast(group, x, y);
    more := s[..|s| - 1];
    TiedRecordsGo(ages, y.key, group, s);
    SameMembers(s, group);
    OverwrittenOneKey(y.key, more);
  }

  /** An unreadable record whose key another record dates can go: by the count rule, grouping just the two. */
  lemma {:induction false} UndatableCanGo(parse: Parser, es: seq<Entry>, x: Entry, y: Entry)
    requires x in es && y in es && x.key == y.key && Datable(parse, x) && !Datable(parse, y)
    ensures PlanRun(Rule(0, 0, 1, Some(PairOnly(x, y))), parse, 0, es, [y])
  {
    var rule := Rule(0, 0, 1, Some(PairOnly(x, y)));
    var ages := AgesExist(parse, es);
    assert (if y.key in ages then Some(ages[y.key]) else None) == AgeOf(parse, es, y.key);
    var more := PairEvicts(es, ages, x, y);
    PairNames(es, x, y);
    OneGroupRun(rule, es, ages, "pair", more);
    assert AgeRun(rule, 0, es, ages, map[]) && SizeRun(rule, es, ages, map[], map[]);
    assert VictimsRun(rule, 0, es, ages, map[y.key := y]);
    assert ListsVictims(map[y.key := y], [y]);
  }

  ghost predicate AllDatable(parse: Parser, plan: seq<Entry>) {
    forall e <- plan :: Datable(parse, e)
  }

  /** No unreadable record shares its key with a readable one. */
  ghost predicate KeysAgree(parse: Parser, es: seq<Entry>) {
    forall e <- es | !Datable(parse, e) :: AgeOf(parse, es, e.key).None?
  }

  lemma {:induction false} AgreeingKeysSpare(rule: Rule, parse: Parser, now: int, es: seq<Entry>, plan: seq<Entry>)
    requires KeysAgree(parse, es) && PlanRun(rule, parse, now, es, plan)
    ensures AllDatable(parse, plan)
  {
    forall e | e in plan ensures Datable(parse, e) {
      PlanRunDates(rule, parse, now, es, plan, e);
    }
  }

  lemma {:induction false} MixedKeysCanGo(parse: Parser, es: seq<Entry>) returns (rule: Rule, plan: seq<Entry>)
    requires !KeysAgree(parse, es)
    ensures PlanRun(rule, parse, 0, es, plan) && !AllDatable(parse, plan)
  {
    var y :| y in es && !Datable(parse, y) && AgeOf(parse, es, y.key).Some?;
    var x :| x in es && x.key == y.key && Datable(parse, x);
    UndatableCanGo(parse, es, x, y);
    rule, plan := Rule(0, 0, 1, Some(PairOnly(x, y))), [y];
    assert y in plan;
  }

  /** No rule, at any time and whatever the sorts make of ties, evicts an entry without a readable
      timestamp, exactly when no such entry shares its key with a readable one. */
  lemma {:induction false} SparesUndatableIff(parse: Parser, es: seq<Entry>)
    ensures (forall rule: Rule, now: int, plan: seq<Entry> | PlanRun(rule, parse, now, es, plan) ::
               AllDatable(parse, plan)) <==> KeysAgree(parse, es)
  {
    if KeysAgree(parse, es) {
      forall rule: Rule, now: int, plan: seq<Entry> | PlanRun(rule, parse, now, es, plan)
        ensures AllDatable(parse, plan)
      {
        AgreeingKeysSpare(rule, parse, now, es, plan);
      }
    } else {
      var rule, plan := MixedKeysCanGo(parse, es);
    }
  }

  // ---------------------------------------------------------------------------------------
  // Execution
  // ---------------------------------------------------------------------------------------

  ghost predicate Gone(deleted: seq<Entry>, key: string) {
    exists v <- deleted :: v.key == key
  }

  ghost function Slots(deleted: seq<Entry>): set<(string, string)> {
    set v | v in deleted :: (v.bucket, v.key)
  }

  lemma OneMoreGone(deleted: seq<Entry>, v: Entry)
    ensures forall k: string :: Gone(deleted + [v], k) <==> Gone(deleted, k) || k == v.key
    ensures Slots(deleted + [v]) == Slots(deleted) + {(v.bucket, v.key)}
  {
  }

  lemma DeleteOneMore(st: Objects, deleted: seq<Entry>, v: Entry)
    ensures st - Slots(deleted) - {(v.bucket, v.key)} == st - Slots(deleted + [v])
  {
    OneMoreGone(deleted, v);
  }

  /** The catalog has lost exactly the keys of the entries deleted. */
  ghost predicate Lost(s: State, deleted: seq<Entry>, t: State) {
    forall k: string :: Lookup(t, k) == if Gone(deleted, k) then None else Lookup(s, k)
  }

  lemma LoseOneMore(rk: Ranking, s: State, deleted: seq<Entry>, t: State, v: Entry)
    requires Lost(s, deleted, t)
    ensures Lost(s, deleted + [v], Apply(rk, t, Step.Remove(v.key)))
  {
    OneMoreGone(deleted, v);
  }

  /** The account of an execution so far: every victim failed or is gone from storage and catalog. */
  ghost predicate Executed(victims: seq<Entry>, failed: seq<Entry>, deleted: seq<Entry>, st: Objects, s: State,
      st': Objects, s': State) {
    && multiset(failed) + multiset(deleted) == multiset(victims)
    && st' == st - Slots(deleted) && Lost(s, deleted, s')
  }

  lemma ExecutedOne(rk: Ranking, victims: seq<Entry>, i: nat, failed: seq<Entry>, deleted: seq<Entry>, st: Objects,
      s: State, st': Objects, s': State)
    requires i < |victims| && Executed(victims[..i], failed, deleted, st, s, st', s')
    ensures var v := victims[i];
            && Executed(victims[..i + 1], failed + [v], deleted, st, s, st', s')
            && Executed(victims[..i + 1], failed, deleted + [v], st, s, st' - {(v.bucket, v.key)},
                 Apply(rk, s', Step.Remove(v.key)))
  {
    assert victims[..i + 1] == victims[..i] + [victims[i]];
    DeleteOneMore(st, deleted, victims[i]);
    LoseOneMore(rk, s, deleted, s', victims[i]);
  }

  /** Attempts every victim; an entry leaves the catalog only after its object is deleted. */
  method Execute(store: Store, cat: Catalog, victims: seq<Entry>)
      returns (failed: seq<Entry>, ghost deleted: seq<Entry>)
    requires cat.Valid()
    modifies store, cat
    ensures cat.Valid()
    ensures store.failures == old(store.failures) + |failed|
    ensures Executed(victims, failed, deleted, old(store.objects), old(cat.Value()), store.objects, cat.Value())
    ensures forall p: (string, string) :: p in store.objects <==>
              p in old(store.objects) && forall v <- deleted :: p != (v.bucket, v.key)
    ensures forall p: (string, string) | p in store.objects :: store.objects[p] == old(store.objects)[p]
    ensures forall k: string :: k in cat.byKey <==> k in old(cat.byKey) && forall v <- deleted :: v.key != k
    ensures forall k: string | k in cat.byKey :: cat.byKey[k] == old(cat.byKey)[k]
  {
    failed, deleted := [], [];
    ghost var st, s := store.objects, cat.Value();
    for i := 0 to |victims|
      invariant cat.Valid()
      invariant store.failures == old(store.failures) + |failed|
      invariant Executed(victims[..i], failed, deleted, st, s, store.objects, cat.Value())
    {
      var victim := victims[i];
      ExecutedOne(cat.ranking, victims, i, failed, deleted, st, s, store.objects, cat.Value());
      var ok := store.DeleteObject(victim.bucket, victim.key);
      if ok {
        cat.Remove(victim.key);
        deleted := deleted + [victim];
      } else {
        failed := failed + [victim];
      }
    }
    assert victims[..|victims|] == victims;
    ExecutedMeans(victims, failed, deleted, st, s, store.objects, cat.Value());
  }

  /** Slot by slot and key by key. */
  lemma ExecutedMeans(victims: seq<Entry>, failed: seq<Entry>, deleted: seq<Entry>, st: Objects, s: State,
      st': Objects, s': State)
    requires Executed(victims, failed, deleted, st, s, st', s')
    ensures forall p: (string, string) :: p in st' <==> p in st && forall v <- deleted :: p != (v.bucket, v.key)
    ensures forall p: (string, string) | p in st' :: st'[p] == st[p]
    ensures forall k: string :: k in s'.byKey <==> k in s.byKey && forall v <- deleted :: v.key != k
    ensures forall k: string | k in s'.byKey :: s'.byKey[k] == s.byKey[k]
  {
    forall k: string
      ensures k in s'.byKey <==> k in s.byKey && forall v <- deleted :: v.key != k
      ensures k in s'.byKey ==> s'.byKey[k] == s.byKey[k]
    {
      assert Lookup(s', k) == if Gone(deleted, k) then None else Lookup(s, k);
    }
    forall p: (string, string) ensures p in st' <==> p in st && forall v <- deleted :: p != (v.bucket, v.key) {
      assert p in Slots(deleted) <==> exists v <- deleted :: p == (v.bucket, v.key);
    }
  }

  lemma SortedIsDistinct(es: seq<Entry>)
    requires StrictlySorted(es)
    ensures DistinctKeys(es)
  {
    forall i, j | 0 <= i < j < |es| ensures es[i].key != es[j].key {
      LessIsTotalOrder(es[i].key, es[j].key, es[i].key);
    }
  }

  lemma DistinctSublist(part: seq<Entry>, es: seq<Entry>)
    requires DistinctKeys(part) && forall e <- part :: e in es
    ensures multiset(part) <= multiset(es)
  {
    forall e ensures multiset(part)[e] <= multiset(es)[e] {
      CountAtMostOne(part, (x: Entry) => x.key, e);
      assert e in part <==> e in multiset(part);
      assert e in es <==> e in multiset(es);
    }
  }

  /** Planning again after a run in which any deletes failed selects only entries whose delete
      failed; if none failed, it selects nothing. */
  lemma ReplanWithinFailed(rule: Rule, parse: Parser, now: int, es: seq<Entry>, plan: seq<Entry>,
                           failed: seq<Entry>, deleted: seq<Entry>, rest: seq<Entry>, again: seq<Entry>)
    requires StrictlySorted(es) && StrictlySorted(rest) && forall e <- es :: e.size >= 0
    requires IsPlan(rule, parse, now, es, plan) && multiset(failed) + multiset(deleted) == multiset(plan)
    requires forall e: Entry :: e in rest <==> e in es && !Gone(deleted, e.key)
    requires IsPlan(rule, parse, now, rest, again)
    ensures forall e <- again :: e in failed
    ensures failed == [] ==> again == []
  {
    SortedIsDistinct(rest);
    DistinctSublist(rest, es);
    forall e | e in again ensures e in failed {
      VictimsShrink(rule, parse, now, rest, es, e);
      assert e in plan && e in multiset(plan);
      assert e !in deleted;
    }
    if failed == [] && again != [] { HeadIsMember(again); }
  }

  /** One cleanup run followed by another plan at the same time. */
  method CleanUpThenPlan(rule: Rule, parse: Parser, now: int, store: Store, cat: Catalog)
      returns (failed: seq<Entry>, again: seq<Entry>)
    requires cat.Valid() && forall k <- cat.byKey :: cat.byKey[k].size >= 0
    modifies store, cat
    ensures cat.Valid()
    ensures forall e <- again :: e in failed
    ensures store.failures == old(store.failures) ==> again == []
  {
    var es := cat.ListAll();
    SortedIsDistinct(es);
    var plan := Plan(rule, parse, now, es);
    ghost var deleted;
    failed, deleted := Execute(store, cat, plan);
    var rest := cat.ListAll();
    SortedIsDistinct(rest);
    again := Plan(rule, parse, now, rest);
    ReplanWithinFailed(rule, parse, now, es, plan, failed, deleted, rest, again);
  }
}
