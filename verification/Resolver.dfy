/** Route resolution and registry reconciliation over the catalog and object storage. */
module Resolvers {
  import opened Outcomes
  import opened Sequences
  import opened Strings
  import opened GenericFormat
  import opened CatalogState
  import opened Catalogs
  import opened Config
  import opened Storage
  import opened View
  import opened Syncs

  // ---------------------------------------------------------------------------------------
  // Specification vocabulary
  // ---------------------------------------------------------------------------------------

  /** Every storage bucket's manifest lists exactly the entries the catalog gives that bucket. */
  ghost predicate Persisted(bs: seq<Bucket>, s: State, st: Objects) {
    forall b <- bs | b.HasStorage() :: SlotLists(s, st, b)
  }

  ghost predicate SlotLists(s: State, st: Objects, b: Bucket) {
    var body := Content(st, b.name, b.manifestKey);
    body.length > 0 && body.files.Some? && ListsBucket(s, b.name, body.files.value)
  }

  /** The manifests Bootstrap reads, in configuration order. */
  function StoredManifests(bs: seq<Bucket>, st: Objects): seq<BucketManifest> {
    if bs == [] then []
    else
      var b := bs[|bs| - 1];
      StoredManifests(bs[..|bs| - 1], st) +
      if b.HasStorage() then [BucketManifest(b.name, Content(st, b.name, b.manifestKey))] else []
  }

  /** Nothing disappeared and only manifests were rewritten. */
  ghost predicate OnlyManifests(bs: seq<Bucket>, a: Objects, b: Objects) {
    SameFiles(bs, a, b) && a.Keys <= b.Keys
  }

  /** What searching the buckets for a key makes of the catalog. */
  function RepairStep(bs: seq<Bucket>, st: Objects, key: string): Step {
    var found := Found(bs, st, key);
    if found.Some? then Step.Set(key, found.value.bucket, found.value.size, found.value.lastModified)
    else Step.Remove(key)
  }

  /** At least two storage buckets have the key. */
  ghost predicate HeldTwice(bs: seq<Bucket>, st: Objects, key: string) {
    HeldTwiceBefore(bs, st, key, |bs|)
  }

  /** The bucket Relocate settles on among the first n: an empty name counts as "none yet", so a
      later holder replaces it. |bs| stands for no bucket. */
  function Target(bs: seq<Bucket>, st: Objects, key: string, n: nat): (i: nat)
    requires n <= |bs|
    ensures i == |bs| || (i < n && Has(bs[i], st, key))
    ensures i == |bs| <==> FirstHolder(bs, st, key) >= n
  {
    if n == 0 then |bs|
    else
      var i := Target(bs, st, key, n - 1);
      if Has(bs[n - 1], st, key) && (i == |bs| || bs[i].name == "") then n - 1 else i
  }

  function RelocateStep(bs: seq<Bucket>, st: Objects, key: string): Step {
    var i := Target(bs, st, key, |bs|);
    if i == |bs| then Step.Remove(key)
    else
      var m := MetaOf(st, bs[i].name, key);
      Step.Set(key, bs[i].name, m.size, m.lastModified)
  }

  /** The first holder has no name, and some other bucket holds the key too. */
  ghost predicate NamelessFirst(bs: seq<Bucket>, st: Objects, key: string) {
    var h := FirstHolder(bs, st, key);
    h < |bs| && bs[h].name == "" && exists j | h < j < |bs| :: Has(bs[j], st, key)
  }

  lemma {:induction false} TargetIs(bs: seq<Bucket>, st: Objects, key: string, n: nat)
    requires DistinctNames(bs) && FirstHolder(bs, st, key) < n <= |bs|
    ensures var h := FirstHolder(bs, st, key);
            Target(bs, st, key, n) == h <==> !(bs[h].name == "" && exists j | h < j < n :: Has(bs[j], st, key))
  {
    var h := FirstHolder(bs, st, key);
    if h + 1 < n {
      TargetIs(bs, st, key, n - 1);
    } else {
      assert Target(bs, st, key, h) == |bs|;
    }
  }

  /** Relocate and ResolveMissingFile agree exactly when a nameless bucket does not come first
      among several holders; a loaded configuration has no nameless bucket. */
  lemma RelocateAgreesIff(bs: seq<Bucket>, st: Objects, key: string)
    requires DistinctNames(bs)
    ensures RelocateStep(bs, st, key) == RepairStep(bs, st, key) <==> !NamelessFirst(bs, st, key)
  {
    var h, t := FirstHolder(bs, st, key), Target(bs, st, key, |bs|);
    if h < |bs| {
      TargetIs(bs, st, key, |bs|);
      assert t != h ==> bs[t].name != bs[h].name;
    }
  }

  /** "" and "b" both hold "k": repair records the first, relocation passes it over for the second. */
  lemma NamelessBucketIsPassedOver()
    ensures var bs := [Bucket("", "m", true, Hosted, "", 0, []), Bucket("b", "m", true, Hosted, "", 0, [])];
            var o := Object("t", Body(1, None));
            var st := map[("", "k") := o, ("b", "k") := o];
            && RepairStep(bs, st, "k") == Step.Set("k", "", 1, "t")
            && RelocateStep(bs, st, "k") == Step.Set("k", "b", 1, "t")
  {
    var bs := [Bucket("", "m", true, Hosted, "", 0, []), Bucket("b", "m", true, Hosted, "", 0, [])];
    var o := Object("t", Body(1, None));
    var st := map[("", "k") := o, ("b", "k") := o];
    assert Has(bs[0], st, "k") && Has(bs[1], st, "k");
    assert FirstHolder(bs, st, "k") == 0;
    assert Target(bs, st, "k", 0) == 2 && Target(bs, st, "k", 1) == 0 && Target(bs, st, "k", 2) == 1;
  }

  /** What a request sees besides catalog and storage: the clock, time parsing and upstreams. */
  datatype World = World(now: int, parseTime: string -> Option<int>, upstream: (string, string) -> Option<Body>)

  /** A positive TTL expires an object of unknown or greater age. */
  predicate CacheExpired(w: World, b: Bucket, m: Meta) {
    b.cacheTtl > 0 && var t := w.parseTime(m.lastModified); t.None? || w.now - t.value > b.cacheTtl
  }

  /** The proxy has no unexpired copy. */
  predicate Misses(w: World, st: Objects, b: Bucket, key: string) {
    var held := Head(st, b.name, key);
    held.None? || CacheExpired(w, b, held.value)
  }

  /** What a storage bucket can offer for a key: a proxy's unexpired copy or upstream's answer,
      any other bucket's own object. */
  function Offer(w: World, st: Objects, b: Bucket, key: string): Option<Meta> {
    if !b.kind.Proxy? || !Misses(w, st, b, key) then Head(st, b.name, key)
    else
      var body := w.upstream(b.upstreamUrl, key);
      if body.Some? then Some(Meta(key, body.value.length, "")) else None
  }

  /** The proxy's bucket holds what upstream sent, unless its slot is also a manifest's. */
  predicate Caches(bs: seq<Bucket>, st: Objects, b: Bucket, key: string, body: Body) {
    (b.name, key) in st && (IsManifestSlot(bs, (b.name, key)) || st[(b.name, key)].body == body)
  }

  /** An offer is served unless the key's owner outranks the bucket. */
  function Served(bs: seq<Bucket>, w: World, s: State, st: Objects, b: Bucket, key: string): Option<Entry> {
    var offer := Offer(w, st, b, key);
    if offer.None? || Outranked(RankingOf(bs), Lookup(s, key), b.name) then None
    else Some(MakeEntry(RankingOf(bs), key, b.name, offer.value.size, offer.value.lastModified))
  }

  /** The same for a virtual repository's member, named. */
  function MemberServes(bs: seq<Bucket>, w: World, s: State, st: Objects, name: string, key: string): Option<Entry> {
    var b := BucketByName(bs, name);
    if b.None? || !b.value.HasStorage() then None else Served(bs, w, s, st, b.value, key)
  }

  /** Asks the members in order until one serves the key. */
  function VirtualServes(bs: seq<Bucket>, w: World, s: State, st: Objects, members: seq<string>,
      key: string): Option<Entry> {
    if members == [] then None
    else
      var first := MemberServes(bs, w, s, st, members[0], key);
      if first.Some? then first else VirtualServes(bs, w, s, st, members[1..], key)
  }

  ghost predicate FirstServing(bs: seq<Bucket>, w: World, s: State, st: Objects, members: seq<string>, key: string,
      i: nat) {
    && i < |members| && MemberServes(bs, w, s, st, members[i], key).Some?
    && forall j | 0 <= j < i :: MemberServes(bs, w, s, st, members[j], key).None?
  }

  /** The answer is that of the first member able to serve the key; there is none only if no member is. */
  lemma {:induction false} VirtualServesFirst(
      bs: seq<Bucket>, w: World, s: State, st: Objects, members: seq<string>, key: string)
    ensures var r := VirtualServes(bs, w, s, st, members, key);
            if r.None? then forall m <- members :: MemberServes(bs, w, s, st, m, key).None?
            else exists i: nat ::
                   FirstServing(bs, w, s, st, members, key, i) && MemberServes(bs, w, s, st, members[i], key) == r
  {
    if members == [] {
    } else {
      if MemberServes(bs, w, s, st, members[0], key).Some? {
        assert FirstServing(bs, w, s, st, members, key, 0);
      } else {
        VirtualServesFirst(bs, w, s, st, members[1..], key);
        assert members == [members[0]] + members[1..];
        var r := VirtualServes(bs, w, s, st, members[1..], key);
        if r.Some? {
          var i: nat :| FirstServing(bs, w, s, st, members[1..], key, i) &&
              MemberServes(bs, w, s, st, members[1..][i], key) == r;
          assert FirstServing(bs, w, s, st, members, key, i + 1);
        }
      }
    }
  }

  /** What an answered request leaves: the served entry registered, or the catalog as it was. */
  function AfterServing(bs: seq<Bucket>, s: State, served: Option<Entry>): State {
    if served.None? then s
    else
      var e := served.value;
      Apply(RankingOf(bs), s, Step.Register(e.key, e.bucket, e.size, e.lastModified))
  }

  /** The entry is found by key and by route, and every other key is as it was. */
  ghost predicate Recorded(s: State, t: State, e: Entry) {
    && Lookup(t, e.key) == Some(e) && LookupByRoute(t, e.route) == Some(e)
    && forall k: string | k != e.key :: Lookup(t, k) == Lookup(s, k)
  }

  lemma WriteRecords(rk: Ranking, s: State, step: Step)
    requires Writes(rk, s, step)
    ensures Recorded(s, Apply(rk, s, step), EntryOf(rk, step))
  {
  }

  /** A better-ranked bucket owns the key. */
  ghost predicate OwnedAbove(bs: seq<Bucket>, s: State, key: string, name: string) {
    key in s.byKey && BucketPriority(bs, s.byKey[key].bucket) < BucketPriority(bs, name)
  }

  /** What a proxy answers for a key it may serve, and what it leaves of storage: a copy that never
      expires or whose age is known and within the TTL, as it stands; otherwise upstream's body, now cached. */
  ghost predicate ProxyAnswers(bs: seq<Bucket>, w: World, b: Bucket, key: string, before: Objects, after: Objects,
      answer: Option<Entry>) {
    var slot, body := (b.name, key), w.upstream(b.upstreamUrl, key);
    if slot in before && (b.cacheTtl <= 0 ||
        (var t := w.parseTime(before[slot].lastModified); t.Some? && w.now - t.value <= b.cacheTtl))
    then
      && after == before && answer.Some?
      && answer.value.size == before[slot].body.length && answer.value.lastModified == before[slot].lastModified
    else if body.Some? then
      && answer.Some? && answer.value.size == body.value.length && answer.value.lastModified == ""
      && slot in after && (IsManifestSlot(bs, slot) || after[slot].body == body.value)
    else answer.None? && after == before
  }

  /** A miss is an absent copy, or one of unknown or too great an age. */
  lemma HitIff(w: World, b: Bucket, key: string, st: Objects)
    ensures Misses(w, st, b, key) <==>
            || (b.name, key) !in st
            || (b.cacheTtl > 0 &&
                var t := w.parseTime(st[(b.name, key)].lastModified); t.None? || w.now - t.value > b.cacheTtl)
  {
  }

  /** What a hosted member answers: its own object, unless a better-ranked bucket owns the key. */
  ghost predicate HostedAnswers(bs: seq<Bucket>, s: State, b: Bucket, key: string, before: Objects,
      answer: Option<Entry>) {
    var slot := (b.name, key);
    answer == if slot !in before || OwnedAbove(bs, s, key, b.name) then None
              else Some(Entry(key, b.name, BucketType(bs, b.name), "/" + b.name + "/" + key,
                before[slot].body.length, before[slot].lastModified))
  }

  /** What a member answers, by the kind of the first bucket of that name. */
  ghost predicate MemberAnswers(bs: seq<Bucket>, w: World, s: State, name: string, key: string, before: Objects,
      after: Objects, answer: Option<Entry>) {
    var i := BucketPriority(bs, name);
    if i == |bs| || bs[i].kind == Virtual then answer.None?
    else if bs[i].kind == Hosted then HostedAnswers(bs, s, bs[i], key, before, answer)
    else if OwnedAbove(bs, s, key, name) then answer.None?
    else ProxyAnswers(bs, w, bs[i], key, before, after, answer)
  }

  /** The first bucket of that name is a proxy. */
  predicate NamesProxy(bs: seq<Bucket>, name: string) {
    var b := BucketByName(bs, name);
    b.Some? && b.value.kind.Proxy?
  }

  /** Nothing disappeared, and besides manifests only the key's objects in proxies among these names changed. */
  ghost predicate OnlyProxies(bs: seq<Bucket>, names: seq<string>, key: string, a: Objects, b: Objects) {
    && a.Keys <= b.Keys
    && forall p: (string, string) | !IsManifestSlot(bs, p) && !SameAt(a, b, p) ::
         p.1 == key && p.0 in names && NamesProxy(bs, p.0)
  }

  lemma OnlyProxiesChain(bs: seq<Bucket>, names: seq<string>, name: string, key: string, a: Objects, b: Objects,
      c: Objects)
    requires OnlyProxies(bs, names, key, a, b) && OnlyProxies(bs, [name], key, b, c) && name in names
    ensures OnlyProxies(bs, names, key, a, c)
  {
    forall p: (string, string) | !IsManifestSlot(bs, p) && !SameAt(a, c, p)
      ensures p.1 == key && p.0 in names && NamesProxy(bs, p.0)
    {
      assert !SameAt(a, b, p) || !SameAt(b, c, p);
    }
  }

  /** Besides manifests, a request for one bucket's key changes only that key's objects: in the
      bucket if it is a proxy, in proxy members if it is virtual. */
  ghost predicate BucketFrame(bs: seq<Bucket>, b: Bucket, key: string, before: Objects, after: Objects) {
    && before.Keys <= after.Keys
    && forall p: (string, string) | !IsManifestSlot(bs, p) && !SameAt(before, after, p) ::
         && p.1 == key
         && ((b.kind.Proxy? && p.0 == b.name) || (b.kind.Virtual? && p.0 in b.members && NamesProxy(bs, p.0)))
  }

  /** The same for a path: what changed is in a proxy that the path addresses, alone or as a member. */
  ghost predicate RouteFrame(bs: seq<Bucket>, route: string, before: Objects, after: Objects) {
    && before.Keys <= after.Keys
    && forall p: (string, string) | !IsManifestSlot(bs, p) && !SameAt(before, after, p) ::
         exists b <- bs :: route == "/" + b.name + "/" + p.1 &&
           ((b.kind.Proxy? && p.0 == b.name) || (b.kind.Virtual? && p.0 in b.members && NamesProxy(bs, p.0)))
  }

  lemma FrameOfRoute(bs: seq<Bucket>, b: Bucket, key: string, route: string, before: Objects, after: Objects)
    requires b in bs && route == Route(b.name, key) && BucketFrame(bs, b, key, before, after)
    ensures RouteFrame(bs, route, before, after)
  {
  }

  /** Nothing disappeared, and besides manifests at most one slot was rewritten. */
  ghost predicate OnlyManifestsAnd(bs: seq<Bucket>, slot: (string, string), a: Objects, b: Objects) {
    a.Keys <= b.Keys && forall p: (string, string) | !IsManifestSlot(bs, p) && p != slot :: SameAt(a, b, p)
  }

  /** A member's own bucket uses the key for its manifest. */
  predicate IsMemberManifest(bs: seq<Bucket>, members: seq<string>, key: string) {
    exists name <- members :: IsManifestSlot(bs, (name, key))
  }

  /** What a member that served nothing leaves of storage: if the key's owner outranks it, manifests
      and its own copy may have been rewritten; otherwise nothing was. */
  ghost predicate PassedOver(bs: seq<Bucket>, s: State, key: string, name: string, a: Objects, b: Objects) {
    if Outranked(RankingOf(bs), Lookup(s, key), name) then OnlyManifestsAnd(bs, (name, key), a, b) else b == a
  }

  /** An answer that asking the members in order can give, each over the storage its predecessors left. */
  ghost predicate VirtualRun(bs: seq<Bucket>, w: World, s: State, st: Objects, members: seq<string>, key: string,
      answer: Option<Entry>)
    decreases |members|
  {
    if members == [] then answer.None?
    else
      var first := MemberServes(bs, w, s, st, members[0], key);
      if first.Some? then answer == first
      else exists next: Objects ::
        PassedOver(bs, s, key, members[0], st, next) && VirtualRun(bs, w, s, next, members[1..], key, answer)
  }

  /** The storages agree on every member that could still be served. */
  ghost predicate SameOffers(bs: seq<Bucket>, s: State, members: seq<string>, key: string, a: Objects, b: Objects) {
    forall name <- members | !Outranked(RankingOf(bs), Lookup(s, key), name) :: SameAt(a, b, (name, key))
  }

  lemma SameMemberOffer(bs: seq<Bucket>, w: World, s: State, key: string, a: Objects, b: Objects, name: string)
    requires !Outranked(RankingOf(bs), Lookup(s, key), name) ==> SameAt(a, b, (name, key))
    ensures MemberServes(bs, w, s, a, name, key) == MemberServes(bs, w, s, b, name, key)
  {
  }

  lemma {:induction false} SameOffersServe(bs: seq<Bucket>, w: World, s: State, members: seq<string>, key: string,
      a: Objects, b: Objects)
    requires SameOffers(bs, s, members, key, a, b)
    ensures VirtualServes(bs, w, s, a, members, key) == VirtualServes(bs, w, s, b, members, key)
  {
    if members == [] {
    } else {
      assert members[0] in members;
      SameMemberOffer(bs, w, s, key, a, b, members[0]);
      SameOffersServe(bs, w, s, members[1..], key, a, b);
    }
  }

  lemma PassedOverKeepsOffers(bs: seq<Bucket>, s: State, members: seq<string>, key: string, name: string, a: Objects,
      b: Objects)
    requires !IsMemberManifest(bs, members, key) && PassedOver(bs, s, key, name, a, b)
    ensures SameOffers(bs, s, members, key, a, b)
  {
    forall other | other in members && !Outranked(RankingOf(bs), Lookup(s, key), other)
      ensures SameAt(a, b, (other, key))
    {
      assert !IsManifestSlot(bs, (other, key));
    }
  }

  /** Unless a member's own bucket uses the key for its manifest, the only possible answer is that
      of the first member able to serve the key at the outset. */
  lemma {:induction false} VirtualRunServes(bs: seq<Bucket>, w: World, s: State, st: Objects, members: seq<string>,
      key: string, answer: Option<Entry>)
    requires VirtualRun(bs, w, s, st, members, key, answer) && !IsMemberManifest(bs, members, key)
    ensures answer == VirtualServes(bs, w, s, st, members, key)
    decreases |members|
  {
    if members == [] {
    } else if MemberServes(bs, w, s, st, members[0], key).None? {
      var next: Objects :|
        PassedOver(bs, s, key, members[0], st, next) && VirtualRun(bs, w, s, next, members[1..], key, answer);
      assert !IsMemberManifest(bs, members[1..], key);
      VirtualRunServes(bs, w, s, next, members[1..], key, answer);
      PassedOverKeepsOffers(bs, s, members[1..], key, members[0], st, next);
      SameOffersServe(bs, w, s, members[1..], key, st, next);
    }
  }

  lemma VirtualRunStep(bs: seq<Bucket>, w: World, s: State, members: seq<string>, i: nat, key: string,
      before: Objects, after: Objects, answer: Option<Entry>)
    requires i < |members| && MemberServes(bs, w, s, before, members[i], key).None?
    requires PassedOver(bs, s, key, members[i], before, after)
    requires VirtualRun(bs, w, s, after, members[i + 1..], key, answer)
    ensures VirtualRun(bs, w, s, before, members[i..], key, answer)
  {
    assert members[i..][1..] == members[i + 1..];
  }

  /** The convenience prefixes: the key, and whether public buckets are asked. */
  function ParseVirtualPrefix(route: string): Option<(string, bool)> {
    if "/public/" <= route && route != "/public/" then Some((TrimPrefix(route, "/public/"), true))
    else if "/private/" <= route && route != "/private/" then Some((TrimPrefix(route, "/private/"), false))
    else None
  }

  /** A path asks by visibility exactly when it is a convenience prefix with a key after it. */
  lemma VirtualPrefixIff(route: string, key: string, isPublic: bool)
    ensures ParseVirtualPrefix(route) == Some((key, isPublic)) <==>
            key != "" && route == (if isPublic then "/public/" else "/private/") + key
  {
    if route == "/public/" + key {
      assert TrimPrefix(route, "/public/") == key;
    }
    if route == "/private/" + key {
      assert route[2] == 'r' && "/public/"[2] == 'u';
      assert TrimPrefix(route, "/private/") == key;
    }
  }

  predicate VisibleHas(b: Bucket, st: Objects, key: string, isPublic: bool) {
    Has(b, st, key) && b.isPublic == isPublic
  }

  function FirstVisible(bs: seq<Bucket>, st: Objects, key: string, isPublic: bool): (i: nat)
    ensures i <= |bs|
    ensures i < |bs| ==> VisibleHas(bs[i], st, key, isPublic)
    ensures forall j | 0 <= j < i :: !VisibleHas(bs[j], st, key, isPublic)
  {
    First(bs, (b: Bucket) => VisibleHas(b, st, key, isPublic))
  }

  function FoundVisible(bs: seq<Bucket>, st: Objects, key: string, isPublic: bool): Option<Entry> {
    var i := FirstVisible(bs, st, key, isPublic);
    if i < |bs| then Some(FreshEntry(bs, st, key, bs[i].name)) else None
  }

  /** The first bucket whose prefix a path has. */
  function Addressed(bs: seq<Bucket>, route: string): (i: nat)
    ensures i <= |bs|
    ensures i < |bs| ==> Route(bs[i].name, "") <= route
    ensures forall j | 0 <= j < i :: !(Route(bs[j].name, "") <= route)
  {
    First(bs, (b: Bucket) => Route(b.name, "") <= route)
  }

  /** What a request is answered with, and the catalog it leaves. */
  datatype Outcome = Outcome(answer: Option<Entry>, catalog: State)

  /** Repairing a key, and answering only if its file is still served by the path. */
  function RepairOutcome(bs: seq<Bucket>, s: State, st: Objects, key: string, route: string): Outcome {
    var found := Found(bs, st, key);
    Outcome(if found.Some? && found.value.route == route then found else None,
            Apply(RankingOf(bs), s, RepairStep(bs, st, key)))
  }

  function VisibleOutcome(bs: seq<Bucket>, s: State, st: Objects, key: string, isPublic: bool): Outcome {
    var found := FoundVisible(bs, st, key, isPublic);
    Outcome(found,
            if found.None? then s
            else Apply(RankingOf(bs), s, Step.Set(key, found.value.bucket, found.value.size, found.value.lastModified)))
  }

  /** A request for one bucket's key, by the kind of the bucket. */
  ghost predicate BucketRun(bs: seq<Bucket>, w: World, s: State, st: Objects, b: Bucket, key: string, o: Outcome) {
    if b.kind.Hosted? then o == RepairOutcome(bs, s, st, key, Route(b.name, key))
    else
      && o.catalog == AfterServing(bs, s, o.answer)
      && if b.kind.Proxy? then o.answer == Served(bs, w, s, st, b, key)
         else VirtualRun(bs, w, s, st, b.members, key, o.answer)
  }

  /** A path without a catalogued route: by visibility, or by the kind of the bucket it addresses. */
  ghost predicate UncataloguedRun(bs: seq<Bucket>, w: World, s: State, st: Objects, route: string, o: Outcome) {
    var prefix, i := ParseVirtualPrefix(route), Addressed(bs, route);
    if prefix.Some? then o == VisibleOutcome(bs, s, st, prefix.value.0, prefix.value.1)
    else if i == |bs| then o == Outcome(None, s)
    else BucketRun(bs, w, s, st, bs[i], TrimPrefix(route, Route(bs[i].name, "")), o)
  }

  /** A path in a run without failures. */
  ghost predicate RouteRun(bs: seq<Bucket>, w: World, s: State, st: Objects, route: string, o: Outcome) {
    var known := LookupByRoute(s, route);
    if known.None? then UncataloguedRun(bs, w, s, st, route, o)
    else if (known.value.bucket, known.value.key) in st then o == Outcome(known, s)
    else o == RepairOutcome(bs, s, st, known.value.key, route)
  }

  /** The entry answers the request: by its own route, by the visibility asked for, or as a
      member of the virtual repository addressed. */
  ghost predicate Answers(bs: seq<Bucket>, route: string, e: Entry) {
    || e.route == route
    || (exists b <- bs, isPublic: bool ::
          && ParseVirtualPrefix(route) == Some((e.key, isPublic))
          && b.name == e.bucket && b.HasStorage() && b.isPublic == isPublic)
    || (exists v <- bs :: v.kind.Virtual? && route == Route(v.name, e.key) && e.bucket in v.members)
  }

  datatype RelocateError = StorageFailed | FileNotFound | PersistFailed

  datatype RelocateResult = RelocateResult(
    entry: Entry, relocatedFrom: string, relocatedTo: string, duplicate: bool)

  class Resolver {
    const cfg: seq<Bucket>
    const catalog: Catalog
    const store: Store
    const fetcher: Fetcher
    /** RFC 3339 parsing. */
    const parseTime: string -> Option<int>
    var duplicateCount: int

    ghost predicate Valid()
      reads this, catalog
    {
      catalog.Valid() && catalog.ranking == RankingOf(cfg)
    }

    constructor (cfg: seq<Bucket>, catalog: Catalog, store: Store, fetcher: Fetcher, parseTime: string -> Option<int>)
      requires catalog.Valid() && catalog.ranking == RankingOf(cfg)
      ensures Valid()
      ensures this.cfg == cfg && this.catalog == catalog && this.store == store
      ensures this.fetcher == fetcher && this.parseTime == parseTime
    {
      this.cfg, this.catalog, this.store := cfg, catalog, store;
      this.fetcher, this.parseTime := fetcher, parseTime;
      duplicateCount := 0;
    }

    // -------------------------------------------------------------------------------------
    // Manifests and synchronisation
    // -------------------------------------------------------------------------------------

    /** Attempts every bucket, and reports whether all writes succeeded. */
    method PersistManifests() returns (ok: bool)
      requires Valid()
      modifies store
      ensures store.failures >= old(store.failures)
      ensures ok <==> store.failures == old(store.failures)
      ensures OnlyManifests(cfg, old(store.objects), store.objects)
      ensures ok ==> Persisted(cfg, catalog.Value(), store.objects)
    {
      ok := true;
      for i := 0 to |cfg|
        invariant store.failures >= old(store.failures)
        invariant ok <==> store.failures == old(store.failures)
        invariant OnlyManifests(cfg, old(store.objects), store.objects)
        invariant ok ==> Persisted(cfg[..i], catalog.Value(), store.objects)
      {
        var bucket := cfg[i];
        assert cfg[..i + 1] == cfg[..i] + [bucket];
        if bucket.HasStorage() {
          var files := catalog.ListByBucket(bucket.name);
          var length: nat :| length > 0;
          ghost var before := store.objects;
          var put := store.PutObject(bucket.name, bucket.manifestKey, Body(length, Some(files)));
          ok := ok && put;
          assert IsManifestSlot(cfg, (bucket.name, bucket.manifestKey));
          if ok {
            forall b | b in cfg[..i + 1] && b.HasStorage() ensures SlotLists(catalog.Value(), store.objects, b) {
              if (b.name, b.manifestKey) != (bucket.name, bucket.manifestKey) {
                assert SlotLists(catalog.Value(), before, b);
              }
            }
          }
        }
      }
      assert cfg[..|cfg|] == cfg;
    }

    /** The body of SyncRegistry's inner loop. */
    method SyncObject(bucket: Bucket, obj: Meta, seen0: set<string>, dups0: set<string>, ghost added0: seq<Step>,
        ghost start: seq<Step>)
        returns (seen: set<string>, dups: set<string>, ghost added: seq<Step>)
      requires Valid() && catalog.history == start + added0
      modifies catalog
      ensures Valid() && catalog.history == start + added
      ensures ObjectSynced(bucket, obj, Progress(seen0, dups0, added0), Progress(seen, dups, added))
    {
      seen, dups, added := seen0, dups0, added0;
      if obj.key == bucket.manifestKey {
        return;
      }
      if obj.key in seen {
        dups := dups + {obj.key};
      } else {
        catalog.Register(obj.key, bucket.name, obj.size, obj.lastModified);
        added := added + [Step.Register(obj.key, bucket.name, obj.size, obj.lastModified)];
      }
      seen := seen + {obj.key};
    }

    /** Registers what one bucket lists, except keys an earlier bucket already claimed. */
    method SyncBucket(bucket: Bucket, metas: seq<Meta>, seen0: set<string>, dups0: set<string>)
        returns (seen: set<string>, dups: set<string>, ghost added: seq<Step>)
      requires Valid() && bucket.HasStorage()
      requires Lists(store.objects, bucket.name, metas)
      modifies catalog
      ensures Valid() && catalog.history == old(catalog.history) + added
      ensures BucketSynced(cfg, store.objects, bucket, seen0, dups0, Progress(seen, dups, added))
    {
      seen, dups, added := seen0, dups0, [];
      for j := 0 to |metas|
        invariant Valid() && catalog.history == old(catalog.history) + added
        invariant ListingSynced(cfg, store.objects, bucket, metas[..j], seen0, dups0, Progress(seen, dups, added))
      {
        ghost var mid := Progress(seen, dups, added);
        seen, dups, added := SyncObject(bucket, metas[j], seen, dups, added, old(catalog.history));
        ListingStep(cfg, store.objects, bucket, metas, j, seen0, dups0, mid, Progress(seen, dups, added));
      }
      assert metas[..|metas|] == metas;
      ListingIsBucket(cfg, store.objects, bucket, metas, seen0, dups0, Progress(seen, dups, added));
    }

    /** Lists one bucket and registers what it keeps; a virtual repository is passed over. */
    method VisitBucket(bucket: Bucket, seen0: set<string>, dups0: set<string>)
        returns (ok: bool, seen: set<string>, dups: set<string>, ghost added: seq<Step>)
      requires Valid()
      modifies catalog, store`failures
      ensures Valid() && catalog.history == old(catalog.history) + added
      ensures store.failures == old(store.failures) + if ok then 0 else 1
      ensures if ok then BucketSynced(cfg, store.objects, bucket, seen0, dups0, Progress(seen, dups, added))
              else added == []
    {
      ok, seen, dups, added := true, seen0, dups0, [];
      if bucket.HasStorage() {
        var objects := store.ListObjects(bucket.name);
        if objects.Err? {
          ok := false;
          return;
        }
        seen, dups, added := SyncBucket(bucket, objects.value, seen, dups);
      }
    }

    /** One round of SyncRegistry's loop, with what it adds to the pass so far. */
    method VisitNext(i: nat, seen0: set<string>, dups0: set<string>, ghost pass0: seq<Step>, ghost start: seq<Step>)
        returns (ok: bool, seen: set<string>, dups: set<string>, ghost pass: seq<Step>)
      requires Valid() && catalog.history == start + pass0
      requires i < |cfg| && SyncedUpTo(cfg, store.objects, i, Progress(seen0, dups0, pass0))
      modifies catalog, store`failures
      ensures Valid() && catalog.history == start + pass
      ensures store.failures == old(store.failures) + if ok then 0 else 1
      ensures if ok then SyncedUpTo(cfg, store.objects, i + 1, Progress(seen, dups, pass)) else pass == pass0
      ensures IsPartialPass(cfg, store.objects, pass)
    {
      ghost var added;
      ok, seen, dups, added := VisitBucket(cfg[i], seen0, dups0);
      pass := pass0 + added;
      ConcatAssociates(start, pass0, added);
      if ok {
        SyncedStep(cfg, store.objects, i, Progress(seen0, dups0, pass0), Progress(seen, dups, added));
        SyncedSoFar(cfg, store.objects, i + 1, Progress(seen, dups, pass));
      } else {
        SyncedSoFar(cfg, store.objects, i, Progress(seen0, dups0, pass0));
      }
    }

    /** The listing part of SyncRegistry. A failed listing ends it early, with what was registered so far. */
    method ScanBuckets() returns (ok: bool, dups: set<string>, ghost pass: seq<Step>)
      requires Valid()
      modifies catalog, store`failures
      ensures Valid() && catalog.history == old(catalog.history) + pass
      ensures store.failures == old(store.failures) + if ok then 0 else 1
      ensures IsPartialPass(cfg, store.objects, pass)
      ensures ok ==> IsPass(cfg, store.objects, pass) && dups == Duplicates(cfg, store.objects)
    {
      var seen: set<string>;
      ok, seen, dups, pass := VisitAll();
      if ok {
        SyncedAll(cfg, store.objects, Progress(seen, dups, pass));
      }
    }

    /** The loop of ScanBuckets. */
    method VisitAll() returns (ok: bool, seen: set<string>, dups: set<string>, ghost pass: seq<Step>)
      requires Valid()
      modifies catalog, store`failures
      ensures Valid() && catalog.history == old(catalog.history) + pass
      ensures store.failures == old(store.failures) + if ok then 0 else 1
      ensures IsPartialPass(cfg, store.objects, pass)
      ensures ok ==> SyncedUpTo(cfg, store.objects, |cfg|, Progress(seen, dups, pass))
    {
      ghost var st := store.objects;
      ok, seen, dups, pass := true, {}, {}, [];
      NothingSynced(cfg, st);
      for i := 0 to |cfg|
        invariant ok && Valid() && store.failures == old(store.failures) && store.objects == st
        invariant catalog.history == old(catalog.history) + pass
        invariant SyncedUpTo(cfg, st, i, Progress(seen, dups, pass)) && IsPartialPass(cfg, st, pass)
      {
        ok, seen, dups, pass := VisitNext(i, seen, dups, pass, old(catalog.history));
        if !ok {
          return;
        }
      }
    }

    /** Lists every bucket, registers each key under the first bucket that keeps it, counts
        duplicates and persists. */
    method SyncRegistry() returns (ok: bool, ghost pass: seq<Step>)
      requires Valid()
      modifies catalog, store, this`duplicateCount
      ensures Valid() && catalog.history == old(catalog.history) + pass
      ensures IsPartialPass(cfg, old(store.objects), pass) && (ok ==> IsPass(cfg, old(store.objects), pass))
      ensures SyncedPartly(cfg, old(catalog.Value()), old(store.objects), catalog.Value())
      ensures store.failures >= old(store.failures)
      ensures store.failures == old(store.failures) ==> ok && Persisted(cfg, catalog.Value(), store.objects)
      ensures OnlyRegisters(old(catalog.history), catalog.history, Names(cfg))
      ensures OnlyManifests(cfg, old(store.objects), store.objects)
      ensures ok ==> IsSynced(cfg, old(catalog.Value()), old(store.objects), catalog.Value())
      ensures ok ==> duplicateCount == |Duplicates(cfg, old(store.objects))|
      ensures !ok ==> duplicateCount == old(duplicateCount) && store.objects == old(store.objects)
    {
      var dups;
      ok, dups, pass := ScanBuckets();
      PassResult(cfg, old(catalog.history), old(store.objects), pass);
      if ok {
        duplicateCount := |dups|;
        var _ := PersistManifests();
      }
    }

    /** Loads the persisted manifests, then reconciles with storage. */
    method Bootstrap() returns (ok: bool, ghost pass: seq<Step>)
      requires Valid()
      modifies catalog, store, this`duplicateCount
      ensures Valid()
      ensures store.failures >= old(store.failures)
      ensures store.failures == old(store.failures) ==> ok && Persisted(cfg, catalog.Value(), store.objects)
      ensures OnlyManifests(cfg, old(store.objects), store.objects)
      ensures ok ==> IsSynced(cfg, Loaded(RankingOf(cfg), StoredManifests(cfg, old(store.objects))),
                              old(store.objects), catalog.Value())
      ensures ok ==> duplicateCount == |Duplicates(cfg, old(store.objects))|
      ensures ok ==> IsPass(cfg, old(store.objects), pass)
      ensures ok ==> catalog.history == old(catalog.history) + [Step.Clear] +
                                        RecordSteps(StoredManifests(cfg, old(store.objects))) + pass
    {
      pass := [];
      var manifests: seq<BucketManifest> := [];
      for i := 0 to |cfg|
        invariant store.objects == old(store.objects) && store.failures == old(store.failures)
        invariant catalog.Value() == old(catalog.Value()) && catalog.history == old(catalog.history)
        invariant manifests == StoredManifests(cfg[..i], store.objects)
      {
        var bucket := cfg[i];
        assert cfg[..i + 1][..i] == cfg[..i];
        if bucket.HasStorage() {
          var content := store.GetObject(bucket.name, bucket.manifestKey);
          if content.Err? {
            ok := false;
            return;
          }
          manifests := manifests + [BucketManifest(bucket.name, content.value)];
        }
      }
      assert cfg[..|cfg|] == cfg;
      catalog.LoadManifests(manifests);
      ok, pass := SyncRegistry();
    }

    // -------------------------------------------------------------------------------------
    // Repair
    // -------------------------------------------------------------------------------------

    /** Records where an object was found, persists, and looks the entry up again. */
    method RecordFound(bucketName: string, obj: Meta) returns (entry: Entry)
      requires Valid()
      modifies catalog, store
      ensures Valid()
      ensures store.failures >= old(store.failures)
      ensures store.failures == old(store.failures) ==> Persisted(cfg, catalog.Value(), store.objects)
      ensures OnlyManifests(cfg, old(store.objects), store.objects)
      ensures entry == MakeEntry(RankingOf(cfg), obj.key, bucketName, obj.size, obj.lastModified)
      ensures catalog.Value() == Apply(RankingOf(cfg), old(catalog.Value()),
                Step.Set(obj.key, bucketName, obj.size, obj.lastModified))
      ensures Recorded(old(catalog.Value()), catalog.Value(), entry)
    {
      WriteRecords(RankingOf(cfg), catalog.Value(), Step.Set(obj.key, bucketName, obj.size, obj.lastModified));
      catalog.Set(obj.key, bucketName, obj.size, obj.lastModified);
      var _ := PersistManifests();
      entry := catalog.byKey[obj.key];
    }

    /** Searches the buckets in priority order and records where the key is, or that it is gone.
        A failed HEAD changes nothing; the key is removed only if every storage bucket said no. */
    method ResolveMissingFile(key: string) returns (r: Result<Option<Entry>, ()>)
      requires Valid()
      modifies catalog, store
      ensures Valid()
      ensures store.failures >= old(store.failures)
      ensures store.failures == old(store.failures) ==> r.Ok? && Persisted(cfg, catalog.Value(), store.objects)
      ensures OnlyManifests(cfg, old(store.objects), store.objects)
      ensures r.Err? ==> catalog.Value() == old(catalog.Value()) && store.objects == old(store.objects)
      ensures r.Ok? ==> r.value == Found(cfg, old(store.objects), key)
      ensures r.Ok? ==> catalog.Value() == Apply(RankingOf(cfg), old(catalog.Value()),
          RepairStep(cfg, old(store.objects), key))
    {
      for i := 0 to |cfg|
        invariant store.objects == old(store.objects) && store.failures == old(store.failures)
        invariant catalog.Value() == old(catalog.Value()) && catalog.history == old(catalog.history)
        invariant forall j | 0 <= j < i :: !Has(cfg[j], store.objects, key)
      {
        var bucket := cfg[i];
        if bucket.HasStorage() {
          var obj := store.HeadObject(bucket.name, key);
          if obj.Err? {
            return Err(());
          }
          if obj.value.Some? {
            assert FirstHolder(cfg, store.objects, key) == i;
            var entry := RecordFound(bucket.name, obj.value.value);
            return Ok(Some(entry));
          }
        }
      }
      assert FirstHolder(cfg, store.objects, key) == |cfg|;
      catalog.Remove(key);
      var _ := PersistManifests();
      return Ok(None);
    }

    /** The search loop of Relocate. An empty bucket name doubles as "no target yet". */
    method CheckEveryBucket(filename: string) returns (ok: bool, targetBucket: string, targetObj: Meta, foundCount: int)
      modifies store`failures
      ensures store.failures == old(store.failures) + if ok then 0 else 1
      ensures ok ==> (foundCount == 0 <==> Found(cfg, store.objects, filename).None?)
      ensures ok ==> (foundCount > 1 <==> HeldTwice(cfg, store.objects, filename)) && foundCount >= 0
      ensures ok && foundCount > 0 ==> RelocateStep(cfg, store.objects, filename) ==
                                       Step.Set(filename, targetBucket, targetObj.size, targetObj.lastModified)
    {
      targetBucket, targetObj, foundCount := "", Meta("", 0, ""), 0;
      ghost var st := store.objects;
      for i := 0 to |cfg|
        invariant store.objects == st && store.failures == old(store.failures)
        invariant Counted(cfg, st, filename, i, foundCount) && Targeted(cfg, st, filename, i, targetBucket, targetObj)
      {
        var bucket := cfg[i];
        CountedStep(cfg, st, filename, i, foundCount);
        TargetedStep(cfg, st, filename, i, targetBucket, targetObj);
        if bucket.HasStorage() {
          var obj := store.HeadObject(bucket.name, filename);
          if obj.Err? {
            ok := false;
            return;
          }
          if obj.value.Some? {
            foundCount := foundCount + 1;
            if targetBucket == "" {
              targetBucket := bucket.name;
              targetObj := obj.value.value;
            }
          }
        }
      }
      ok := true;
    }

    /** Like ResolveMissingFile, but checks every bucket so as to report duplicates, and reports
        a failed persist. */
    method Relocate(filename: string) returns (r: Result<RelocateResult, RelocateError>)
      requires Valid()
      modifies catalog, store
      ensures Valid()
      ensures store.failures >= old(store.failures)
      ensures store.failures == old(store.failures) ==>
                (r.Ok? || r.error.FileNotFound?) && Persisted(cfg, catalog.Value(), store.objects)
      ensures OnlyManifests(cfg, old(store.objects), store.objects)
      ensures r.Err? && r.error.StorageFailed? ==>
                catalog.Value() == old(catalog.Value()) && store.objects == old(store.objects)
      ensures r.Err? && r.error.FileNotFound? ==> Found(cfg, old(store.objects), filename).None?
      ensures !(r.Err? && r.error.StorageFailed?) ==>
                catalog.Value() == Apply(RankingOf(cfg), old(catalog.Value()),
                    RelocateStep(cfg, old(store.objects), filename))
      ensures r.Ok? ==>
                && Lookup(catalog.Value(), filename) == Some(r.value.entry)
                && (r.value.duplicate <==> HeldTwice(cfg, old(store.objects), filename))
                && Persisted(cfg, catalog.Value(), store.objects)
                && var previous := Lookup(old(catalog.Value()), filename);
                   if previous.Some? && previous.value.bucket != r.value.entry.bucket
                   then r.value.relocatedFrom == previous.value.bucket && r.value.relocatedTo == r.value.entry.bucket
                   else r.value.relocatedFrom == "" && r.value.relocatedTo == ""
    {
      var ok, targetBucket, targetObj, foundCount := CheckEveryBucket(filename);
      if !ok {
        return Err(StorageFailed);
      }
      if foundCount == 0 {
        catalog.Remove(filename);
        var _ := PersistManifests();
        return Err(FileNotFound);
      }
      var previous := Lookup(catalog.Value(), filename);
      catalog.Set(filename, targetBucket, targetObj.size, targetObj.lastModified);
      var persisted := PersistManifests();
      if !persisted {
        return Err(PersistFailed);
      }
      var moved := previous.Some? && previous.value.bucket != targetBucket;
      return Ok(RelocateResult(catalog.byKey[filename], if moved then previous.value.bucket else "",
                               if moved then targetBucket else "", foundCount > 1));
    }

    // -------------------------------------------------------------------------------------
    // Routes
    // -------------------------------------------------------------------------------------

    /** Searches only the buckets of one visibility; a miss leaves the catalog alone. */
    method ResolveMissingFileByType(key: string, isPublic: bool) returns (r: Result<Option<Entry>, ()>)
      requires Valid()
      modifies catalog, store
      ensures Valid()
      ensures store.failures >= old(store.failures)
      ensures store.failures == old(store.failures) ==> r.Ok?
      ensures OnlyManifests(cfg, old(store.objects), store.objects)
      ensures r.Ok? ==> r.value == FoundVisible(cfg, old(store.objects), key, isPublic)
      ensures store.failures == old(store.failures) && r.value.Some? ==> Persisted(cfg, catalog.Value(), store.objects)
      ensures r.Ok? && r.value.Some? && DistinctNames(cfg) ==> (r.value.value.bucketType == "public" <==> isPublic)
      ensures catalog.Value() ==
                if r.Ok? && r.value.Some?
                then Apply(RankingOf(cfg), old(catalog.Value()),
                    Step.Set(key, r.value.value.bucket, r.value.value.size, r.value.value.lastModified))
                else old(catalog.Value())
      ensures r.Ok? && r.value.Some? ==> Recorded(old(catalog.Value()), catalog.Value(), r.value.value)
    {
      for i := 0 to |cfg|
        invariant store.objects == old(store.objects) && store.failures == old(store.failures)
        invariant catalog.Value() == old(catalog.Value()) && catalog.history == old(catalog.history)
        invariant forall j | 0 <= j < i :: !VisibleHas(cfg[j], store.objects, key, isPublic)
      {
        var bucket := cfg[i];
        if bucket.HasStorage() && bucket.isPublic == isPublic {
          var obj := store.HeadObject(bucket.name, key);
          if obj.Err? {
            return Err(());
          }
          if obj.value.Some? {
            assert FirstVisible(cfg, store.objects, key, isPublic) == i;
            if DistinctNames(cfg) { RankIsPosition(cfg, i); }
            var entry := RecordFound(bucket.name, obj.value.value);
            return Ok(Some(entry));
          }
        }
      }
      assert FirstVisible(cfg, store.objects, key, isPublic) == |cfg|;
      return Ok(None);
    }

    /** Registers a confirmed object, and returns it only if its bucket now owns the key. */
    method RegisterResolvedObject(bucketName: string, key: string, size: int, lastModified: string, persist: bool)
        returns (r: Option<Entry>)
      requires Valid() && bucketName in Names(cfg)
      modifies catalog, store
      ensures Valid()
      ensures store.failures >= old(store.failures)
      ensures OnlyRegisters(old(catalog.history), catalog.history, Names(cfg))
      ensures OnlyManifests(cfg, old(store.objects), store.objects)
      ensures persist && store.failures == old(store.failures) ==> Persisted(cfg, catalog.Value(), store.objects)
      ensures r == if Outranked(RankingOf(cfg), Lookup(old(catalog.Value()), key), bucketName) then None
                   else Some(MakeEntry(RankingOf(cfg), key, bucketName, size, lastModified))
      ensures catalog.Value() == AfterServing(cfg, old(catalog.Value()), r)
      ensures !persist ==> store.objects == old(store.objects)
      ensures r.None? <==> OwnedAbove(cfg, old(catalog.Value()), key, bucketName)
      ensures r.None? ==> catalog.Value() == old(catalog.Value())
      ensures r.Some? ==> Recorded(old(catalog.Value()), catalog.Value(), r.value) && r.value == Entry(key, bucketName,
                            BucketType(cfg, bucketName), "/" + bucketName + "/" + key, size, lastModified)
    {
      ghost var s, step := catalog.Value(), Step.Register(key, bucketName, size, lastModified);
      if Writes(RankingOf(cfg), s, step) { WriteRecords(RankingOf(cfg), s, step); }
      catalog.Register(key, bucketName, size, lastModified);
      if persist {
        var _ := PersistManifests();
      }
      var entry := Lookup(catalog.Value(), key);
      r := if entry.None? || entry.value.bucket != bucketName then None else entry;
    }

    /** Fetch-through caching. Whatever fails, the catalog only ever gains the entry returned. */
    method ResolveProxyRoute(bucket: Bucket, key: string, now: int) returns (r: Result<Option<Entry>, ()>)
      requires Valid() && bucket in cfg && bucket.kind.Proxy?
      modifies catalog, store, fetcher
      ensures Valid()
      ensures store.failures >= old(store.failures) && fetcher.failures >= old(fetcher.failures)
      ensures store.failures == old(store.failures) && fetcher.failures == old(fetcher.failures) ==> r.Ok?
      ensures OnlyRegisters(old(catalog.history), catalog.history, Names(cfg))
      ensures OnlyManifestsAnd(cfg, (bucket.name, key), old(store.objects), store.objects)
      ensures r.Ok? ==> r.value == Served(cfg, World(now, parseTime, fetcher.upstream), old(catalog.Value()),
          old(store.objects), bucket, key)
      ensures r.Ok? && r.value.Some? ==> (bucket.name, key) in store.objects
      ensures r == Ok(None) && !Outranked(RankingOf(cfg), Lookup(old(catalog.Value()), key), bucket.name) ==>
                store.objects == old(store.objects)
      ensures r.Ok? && Misses(World(now, parseTime, fetcher.upstream), old(store.objects), bucket, key) &&
              fetcher.upstream(bucket.upstreamUrl, key).Some? ==>
                Caches(cfg, store.objects, bucket, key, fetcher.upstream(bucket.upstreamUrl, key).value)
      ensures catalog.Value() == AfterServing(cfg, old(catalog.Value()), if r.Ok? then r.value else None)
      ensures r.Ok? && r.value.Some? ==> Recorded(old(catalog.Value()), catalog.Value(), r.value.value)
      ensures r.Err? || r.value.None? ==> catalog.Value() == old(catalog.Value())
      ensures r.Ok? && OwnedAbove(cfg, old(catalog.Value()), key, bucket.name) ==> r.value.None?
      ensures r.Ok? && !OwnedAbove(cfg, old(catalog.Value()), key, bucket.name) ==>
                ProxyAnswers(cfg, World(now, parseTime, fetcher.upstream), bucket, key, old(store.objects),
                    store.objects, r.value)
    {
      ghost var w := World(now, parseTime, fetcher.upstream);
      var obj := store.HeadObject(bucket.name, key);
      if obj.Err? {
        return Err(());
      }
      if obj.value.Some? && !ProxyCacheExpired(bucket, obj.value.value, now) {
        assert !Misses(w, store.objects, bucket, key);
        HitIff(w, bucket, key, store.objects);
        var hit := RegisterResolvedObject(bucket.name, key, obj.value.value.size, obj.value.value.lastModified, false);
        return Ok(hit);
      }
      assert Misses(w, store.objects, bucket, key);
      HitIff(w, bucket, key, store.objects);
      r := FetchThrough(bucket, key);
    }

    /** The miss path of ResolveProxyRoute: fetch, cache and register. */
    method FetchThrough(bucket: Bucket, key: string) returns (r: Result<Option<Entry>, ()>)
      requires Valid() && bucket in cfg && bucket.kind.Proxy?
      modifies catalog, store, fetcher
      ensures Valid()
      ensures store.failures >= old(store.failures) && fetcher.failures >= old(fetcher.failures)
      ensures store.failures == old(store.failures) && fetcher.failures == old(fetcher.failures) ==> r.Ok?
      ensures OnlyRegisters(old(catalog.history), catalog.history, Names(cfg))
      ensures OnlyManifestsAnd(cfg, (bucket.name, key), old(store.objects), store.objects)
      ensures r.Ok? ==> r.value == var body := fetcher.upstream(bucket.upstreamUrl, key);
                                   if body.None? || Outranked(RankingOf(cfg), Lookup(old(catalog.Value()), key),
                                       bucket.name)
                                   then None
                                   else Some(MakeEntry(RankingOf(cfg), key, bucket.name, body.value.length, ""))
      ensures r.Ok? && r.value.Some? ==> (bucket.name, key) in store.objects
      ensures r == Ok(None) && !Outranked(RankingOf(cfg), Lookup(old(catalog.Value()), key), bucket.name) ==>
                store.objects == old(store.objects)
      ensures r.Ok? && fetcher.upstream(bucket.upstreamUrl, key).Some? ==>
                Caches(cfg, store.objects, bucket, key, fetcher.upstream(bucket.upstreamUrl, key).value)
      ensures store.failures == old(store.failures) && r.Ok? && r.value.Some? ==>
          Persisted(cfg, catalog.Value(), store.objects)
      ensures catalog.Value() == AfterServing(cfg, old(catalog.Value()), if r.Ok? then r.value else None)
      ensures r.Ok? && r.value.Some? ==> Recorded(old(catalog.Value()), catalog.Value(), r.value.value)
      ensures r.Err? || r.value.None? ==> catalog.Value() == old(catalog.Value())
    {
      var fetched := fetcher.Fetch(bucket.upstreamUrl, key);
      if fetched.Err? {
        return Err(());
      }
      if fetched.value.None? {
        return Ok(None);
      }
      var body := fetched.value.value;
      var put := store.PutObject(bucket.name, key, body);
      if !put {
        return Err(());
      }
      var entry := RegisterResolvedObject(bucket.name, key, body.length, "", true);
      return Ok(entry);
    }

    predicate ProxyCacheExpired(bucket: Bucket, obj: Meta, now: int) {
      if bucket.cacheTtl <= 0 then false
      else
        match parseTime(obj.lastModified)
        case None => true
        case Some(cachedAt) => now - cachedAt > bucket.cacheTtl
    }

    /** One HEAD against one hosted member. */
    method ResolveHostedMemberRoute(member: Bucket, key: string, ghost now: int) returns (r: Result<Option<Entry>, ()>)
      requires Valid() && member in cfg && member.kind.Hosted?
      modifies catalog, store
      ensures Valid()
      ensures store.failures >= old(store.failures)
      ensures store.failures == old(store.failures) ==> r.Ok?
      ensures OnlyRegisters(old(catalog.history), catalog.history, Names(cfg))
      ensures OnlyManifests(cfg, old(store.objects), store.objects)
      ensures r.Ok? ==> r.value == Served(cfg, World(now, parseTime, fetcher.upstream), old(catalog.Value()),
          old(store.objects), member, key)
      ensures r.Ok? && r.value.Some? ==> (member.name, key) in store.objects
      ensures r == Ok(None) && !Outranked(RankingOf(cfg), Lookup(old(catalog.Value()), key), member.name) ==>
                store.objects == old(store.objects)
      ensures store.failures == old(store.failures) && r.value.Some? ==> Persisted(cfg, catalog.Value(), store.objects)
      ensures catalog.Value() == AfterServing(cfg, old(catalog.Value()), if r.Ok? then r.value else None)
      ensures r.Ok? && r.value.Some? ==> Recorded(old(catalog.Value()), catalog.Value(), r.value.value)
      ensures r.Err? || r.value.None? ==> catalog.Value() == old(catalog.Value())
      ensures r.Ok? ==> HostedAnswers(cfg, old(catalog.Value()), member, key, old(store.objects), r.value)
    {
      var obj := store.HeadObject(member.name, key);
      if obj.Err? {
        return Err(());
      }
      if obj.value.None? {
        return Ok(None);
      }
      var entry := RegisterResolvedObject(member.name, key, obj.value.value.size, obj.value.value.lastModified, true);
      return Ok(entry);
    }

    /** One member's turn: a name without a storage bucket is passed over. */
    method ResolveMember(name: string, key: string, now: int) returns (r: Result<Option<Entry>, ()>)
      requires Valid()
      modifies catalog, store, fetcher
      ensures Valid()
      ensures store.failures >= old(store.failures) && fetcher.failures >= old(fetcher.failures)
      ensures store.failures == old(store.failures) && fetcher.failures == old(fetcher.failures) ==> r.Ok?
      ensures OnlyRegisters(old(catalog.history), catalog.history, Names(cfg))
      ensures r.Ok? ==> r.value == MemberServes(cfg, World(now, parseTime, fetcher.upstream), old(catalog.Value()),
          old(store.objects), name, key)
      ensures r.Ok? && r.value.Some? ==> (name, key) in store.objects
      ensures r == Ok(None) ==>
                PassedOver(cfg, old(catalog.Value()), key, name, old(store.objects), store.objects)
      ensures catalog.Value() == AfterServing(cfg, old(catalog.Value()), if r.Ok? then r.value else None)
      ensures r.Ok? && r.value.Some? ==> Recorded(old(catalog.Value()), catalog.Value(), r.value.value)
      ensures r.Err? || r.value.None? ==> catalog.Value() == old(catalog.Value())
      ensures OnlyProxies(cfg, [name], key, old(store.objects), store.objects)
      ensures r.Ok? ==> MemberAnswers(cfg, World(now, parseTime, fetcher.upstream), old(catalog.Value()), name, key,
                          old(store.objects), store.objects, r.value)
    {
      var member := BucketByName(cfg, name);
      if member.None? || !member.value.HasStorage() {
        return Ok(None);
      }
      if member.value.kind.Proxy? {
        r := ResolveProxyRoute(member.value, key, now);
      } else {
        r := ResolveHostedMemberRoute(member.value, key, now);
      }
    }

    /** Tries a virtual repository's members in order. */
    method ResolveVirtualRoute(virtual: Bucket, key: string, now: int) returns (r: Result<Option<Entry>, ()>)
      requires Valid()
      modifies catalog, store, fetcher
      ensures Valid()
      ensures store.failures >= old(store.failures) && fetcher.failures >= old(fetcher.failures)
      ensures store.failures == old(store.failures) && fetcher.failures == old(fetcher.failures) ==> r.Ok?
      ensures OnlyRegisters(old(catalog.history), catalog.history, Names(cfg))
      ensures r.Ok? ==> VirtualRun(cfg, World(now, parseTime, fetcher.upstream), old(catalog.Value()),
          old(store.objects), virtual.members, key, r.value)
      ensures r.Ok? && (forall b <- cfg | b.name in virtual.members :: b.kind == Virtual || b.manifestKey != key) ==>
                r.value == VirtualServes(cfg, World(now, parseTime, fetcher.upstream), old(catalog.Value()),
                    old(store.objects), virtual.members, key)
      ensures r.Ok? && r.value.Some? ==>
                r.value.value.bucket in virtual.members && r.value.value.key == key &&
                    (r.value.value.bucket, key) in store.objects
      ensures catalog.Value() == AfterServing(cfg, old(catalog.Value()), if r.Ok? then r.value else None)
      ensures r.Ok? && r.value.Some? ==> Recorded(old(catalog.Value()), catalog.Value(), r.value.value)
      ensures r.Err? || r.value.None? ==> catalog.Value() == old(catalog.Value())
      ensures OnlyProxies(cfg, virtual.members, key, old(store.objects), store.objects)
    {
      r := AskMembers(virtual.members, key, now);
      if r.Ok? && forall b <- cfg | b.name in virtual.members :: b.kind == Virtual || b.manifestKey != key {
        VirtualRunServes(cfg, World(now, parseTime, fetcher.upstream), old(catalog.Value()), old(store.objects),
          virtual.members, key, r.value);
      }
    }

    /** The loop of ResolveVirtualRoute. */
    method AskMembers(members: seq<string>, key: string, now: int) returns (r: Result<Option<Entry>, ()>)
      requires Valid()
      modifies catalog, store, fetcher
      ensures Valid()
      ensures store.failures >= old(store.failures) && fetcher.failures >= old(fetcher.failures)
      ensures store.failures == old(store.failures) && fetcher.failures == old(fetcher.failures) ==> r.Ok?
      ensures OnlyRegisters(old(catalog.history), catalog.history, Names(cfg))
      ensures r.Ok? ==> VirtualRun(cfg, World(now, parseTime, fetcher.upstream), old(catalog.Value()),
          old(store.objects), members, key, r.value)
      ensures r.Ok? && r.value.Some? ==>
                r.value.value.bucket in members && r.value.value.key == key &&
                    (r.value.value.bucket, key) in store.objects
      ensures catalog.Value() == AfterServing(cfg, old(catalog.Value()), if r.Ok? then r.value else None)
      ensures r.Ok? && r.value.Some? ==> Recorded(old(catalog.Value()), catalog.Value(), r.value.value)
      ensures r.Err? || r.value.None? ==> catalog.Value() == old(catalog.Value())
      ensures OnlyProxies(cfg, members, key, old(store.objects), store.objects)
    {
      ghost var w, s, st := World(now, parseTime, fetcher.upstream), catalog.Value(), store.objects;
      for i := 0 to |members|
        invariant Valid() && catalog.Value() == s
        invariant store.failures >= old(store.failures) && fetcher.failures >= old(fetcher.failures)
        invariant OnlyRegisters(old(catalog.history), catalog.history, Names(cfg))
        invariant OnlyProxies(cfg, members, key, st, store.objects)
        invariant forall answer: Option<Entry> ::
                    VirtualRun(cfg, w, s, store.objects, members[i..], key, answer) ==>
                      VirtualRun(cfg, w, s, st, members, key, answer)
      {
        ghost var before := store.objects;
        r := ResolveMember(members[i], key, now);
        OnlyProxiesChain(cfg, members, members[i], key, st, before, store.objects);
        if r.Err? {
          return;
        }
        if r.value.Some? {
          assert VirtualRun(cfg, w, s, before, members[i..], key, r.value);
          return;
        }
        forall answer | VirtualRun(cfg, w, s, store.objects, members[i + 1..], key, answer)
          ensures VirtualRun(cfg, w, s, st, members, key, answer)
        {
          VirtualRunStep(cfg, w, s, members, i, key, before, store.objects, answer);
        }
      }
      assert VirtualRun(cfg, w, s, store.objects, members[|members|..], key, None);
      return Ok(None);
    }

    /** Whether an object exists; a failed check counts as absence. */
    method Exists(bucket: string, key: string) returns (found: bool)
      modifies store`failures
      ensures store.failures >= old(store.failures)
      ensures found ==> (bucket, key) in store.objects
      ensures store.failures == old(store.failures) ==> (found <==> (bucket, key) in store.objects)
    {
      var obj := store.HeadObject(bucket, key);
      found := obj.Ok? && obj.value.Some?;
    }

    /** ResolveMissingFile, kept only if the file is still served by the requested route. */
    method RepairRoute(key: string, route: string) returns (r: Result<Option<Entry>, ()>)
      requires Valid()
      modifies catalog, store
      ensures Valid()
      ensures store.failures >= old(store.failures)
      ensures store.failures == old(store.failures) ==> r.Ok?
      ensures OnlyManifests(cfg, old(store.objects), store.objects)
      ensures r.Err? ==> catalog.Value() == old(catalog.Value())
      ensures r.Ok? ==> Outcome(r.value, catalog.Value()) == RepairOutcome(cfg, old(catalog.Value()),
          old(store.objects), key, route)
      ensures r.Ok? && r.value.Some? ==> (r.value.value.bucket, r.value.value.key) in store.objects
      ensures r.Ok? && r.value.Some? ==> Recorded(old(catalog.Value()), catalog.Value(), r.value.value)
    {
      var resolved := ResolveMissingFile(key);
      if resolved.Err? {
        return Err(());
      }
      if resolved.value.Some? && resolved.value.value.route == route {
        WriteRecords(RankingOf(cfg), old(catalog.Value()), RepairStep(cfg, old(store.objects), key));
        return resolved;
      }
      return Ok(None);
    }

    /** Resolves a request path, repairing the catalog where it is stale or silent. Whatever fails,
        an answer exists in its bucket and matches the request. */
    method ResolveRoute(route: string, now: int) returns (r: Result<Option<Entry>, ()>)
      requires Valid()
      modifies catalog, store, fetcher
      ensures Valid()
      ensures store.failures >= old(store.failures) && fetcher.failures >= old(fetcher.failures)
      ensures store.failures == old(store.failures) && fetcher.failures == old(fetcher.failures) ==> r.Ok?
      ensures r.Err? ==> catalog.Value() == old(catalog.Value())
      ensures r.Ok? && r.value.Some? && Consistent(old(catalog.Value())) ==>
                (r.value.value.bucket, r.value.value.key) in store.objects && Answers(cfg, route, r.value.value)
      ensures r.Ok? && store.failures == old(store.failures) ==>
                RouteRun(cfg, World(now, parseTime, fetcher.upstream), old(catalog.Value()), old(store.objects), route,
                    Outcome(r.value, catalog.Value()))
      ensures r.Ok? && r.value.Some? ==>
                || Recorded(old(catalog.Value()), catalog.Value(), r.value.value)
                || (catalog.Value() == old(catalog.Value()) &&
                    LookupByRoute(old(catalog.Value()), route) == Some(r.value.value))
      ensures RouteFrame(cfg, route, old(store.objects), store.objects)
    {
      var known := LookupByRoute(catalog.Value(), route);
      if known.None? {
        r := ResolveUncatalogued(route, now);
        return;
      }
      var present := Exists(known.value.bucket, known.value.key);
      if present {
        return Ok(known);
      }
      r := RepairRoute(known.value.key, route);
    }

    /** ResolveRoute for a path the catalog has no route for. */
    method ResolveUncatalogued(route: string, now: int) returns (r: Result<Option<Entry>, ()>)
      requires Valid()
      modifies catalog, store, fetcher
      ensures Valid()
      ensures store.failures >= old(store.failures) && fetcher.failures >= old(fetcher.failures)
      ensures store.failures == old(store.failures) && fetcher.failures == old(fetcher.failures) ==> r.Ok?
      ensures r.Err? ==> catalog.Value() == old(catalog.Value())
      ensures r.Ok? && r.value.Some? ==>
                (r.value.value.bucket, r.value.value.key) in store.objects && Answers(cfg, route, r.value.value)
      ensures r.Ok? ==>
                UncataloguedRun(cfg, World(now, parseTime, fetcher.upstream), old(catalog.Value()), old(store.objects),
                    route, Outcome(r.value, catalog.Value()))
      ensures r.Ok? && r.value.Some? ==> Recorded(old(catalog.Value()), catalog.Value(), r.value.value)
      ensures RouteFrame(cfg, route, old(store.objects), store.objects)
    {
      var prefix := ParseVirtualPrefix(route);
      if prefix.Some? {
        r := ResolveMissingFileByType(prefix.value.0, prefix.value.1);
        return;
      }
      r := ResolveAddressed(route, now);
    }

    /** ResolveRoute for a path that is no convenience prefix either. */
    method ResolveAddressed(route: string, now: int) returns (r: Result<Option<Entry>, ()>)
      requires Valid() && ParseVirtualPrefix(route).None?
      modifies catalog, store, fetcher
      ensures Valid()
      ensures store.failures >= old(store.failures) && fetcher.failures >= old(fetcher.failures)
      ensures store.failures == old(store.failures) && fetcher.failures == old(fetcher.failures) ==> r.Ok?
      ensures r.Err? ==> catalog.Value() == old(catalog.Value())
      ensures r.Ok? && r.value.Some? ==>
                (r.value.value.bucket, r.value.value.key) in store.objects && Answers(cfg, route, r.value.value)
      ensures r.Ok? ==>
                UncataloguedRun(cfg, World(now, parseTime, fetcher.upstream), old(catalog.Value()), old(store.objects),
                    route, Outcome(r.value, catalog.Value()))
      ensures r.Ok? && r.value.Some? ==> Recorded(old(catalog.Value()), catalog.Value(), r.value.value)
      ensures RouteFrame(cfg, route, old(store.objects), store.objects)
    {
      var i := AddressedBucket(route);
      if i == |cfg| {
        return Ok(None);
      }
      assert route == Route(cfg[i].name, TrimPrefix(route, Route(cfg[i].name, "")));
      var key := TrimPrefix(route, Route(cfg[i].name, ""));
      r := ResolveInBucket(cfg[i], key, now);
      FrameOfRoute(cfg, cfg[i], key, route, old(store.objects), store.objects);
    }

    /** The dispatch on the kind of the addressed bucket. */
    method ResolveInBucket(bucket: Bucket, key: string, now: int) returns (r: Result<Option<Entry>, ()>)
      requires Valid() && bucket in cfg
      modifies catalog, store, fetcher
      ensures Valid()
      ensures store.failures >= old(store.failures) && fetcher.failures >= old(fetcher.failures)
      ensures store.failures == old(store.failures) && fetcher.failures == old(fetcher.failures) ==> r.Ok?
      ensures r.Err? ==> catalog.Value() == old(catalog.Value())
      ensures r.Ok? && r.value.Some? ==>
                (r.value.value.bucket, r.value.value.key) in store.objects &&
                    Answers(cfg, Route(bucket.name, key), r.value.value)
      ensures r.Ok? ==>
                BucketRun(cfg, World(now, parseTime, fetcher.upstream), old(catalog.Value()), old(store.objects),
                    bucket, key, Outcome(r.value, catalog.Value()))
      ensures r.Ok? && r.value.Some? ==> Recorded(old(catalog.Value()), catalog.Value(), r.value.value)
      ensures BucketFrame(cfg, bucket, key, old(store.objects), store.objects)
      ensures r == Ok(None) && !bucket.kind.Hosted? ==> catalog.Value() == old(catalog.Value())
    {
      if bucket.kind.Proxy? {
        r := ResolveProxyRoute(bucket, key, now);
      } else if bucket.kind.Virtual? {
        r := ResolveVirtualRoute(bucket, key, now);
      } else {
        r := RepairRoute(key, Route(bucket.name, key));
      }
    }

    /** The search loop of ResolveRoute. */
    method AddressedBucket(route: string) returns (i: nat)
      ensures i == Addressed(cfg, route)
    {
      i := 0;
      while i < |cfg| && !(Route(cfg[i].name, "") <= route)
        invariant i <= |cfg|
        invariant forall j | 0 <= j < i :: !(Route(cfg[j].name, "") <= route)
      {
        i := i + 1;
      }
    }
  }

  /** A request for a key of a hosted bucket whose name neither holds a slash nor repeats, nor is
      a convenience prefix, against a catalog with inverse maps and slash-free owners. */
  ghost predicate HostedRequest(bs: seq<Bucket>, s: State, i: nat, key: string, route: string)
    requires i < |bs|
  {
    && DistinctNames(bs) && (forall b <- bs :: '/' !in b.name)
    && WellFormed(RankingOf(bs), s) && Consistent(s) && (forall k <- s.byKey :: '/' !in s.byKey[k].bucket)
    && bs[i].kind.Hosted? && bs[i].name != "public" && bs[i].name != "private"
    && route == Route(bs[i].name, key)
  }

  ghost predicate HostedAnswer(bs: seq<Bucket>, s: State, st: Objects, i: nat, key: string)
    requires i < |bs|
  {
    || (key in s.byKey && s.byKey[key].bucket == bs[i].name && (bs[i].name, key) in st)
    || FirstHolder(bs, st, key) == i
  }

  /** Without failures, a hosted path is answered exactly when its bucket owns and still holds the
      key, or is the first bucket to hold it. */
  lemma HostedRouteIff(bs: seq<Bucket>, w: World, s: State, st: Objects, i: nat, key: string, route: string, o: Outcome)
    requires i < |bs| && HostedRequest(bs, s, i, key, route) && RouteRun(bs, w, s, st, route, o)
    ensures o.answer.Some? <==> HostedAnswer(bs, s, st, i, key)
  {
    HostedRequestFacts(bs, s, st, i, key, route);
    assert Addressed(bs, route) == i;
  }

  /** How each test in ResolveRoute comes out for a hosted request. */
  ghost predicate HostedFacts(bs: seq<Bucket>, s: State, st: Objects, i: nat, key: string, route: string)
    requires i < |bs|
  {
    && ParseVirtualPrefix(route).None?
    && (forall j | 0 <= j < |bs| && Route(bs[j].name, "") <= route :: j == i)
    && Route(bs[i].name, "") <= route && TrimPrefix(route, Route(bs[i].name, "")) == key
    && (var known := LookupByRoute(s, route);
        if known.Some? then known.value.key == key && Lookup(s, key) == known && known.value.bucket == bs[i].name
        else key in s.byKey ==> s.byKey[key].bucket != bs[i].name)
    && (var found := Found(bs, st, key);
        found.Some? && found.value.route == route <==> FirstHolder(bs, st, key) == i)
  }

  /** A slash-free name can only match as the whole first segment. */
  lemma PrefixNamesBucket(a: string, b: string, key: string)
    requires '/' !in a && '/' !in b && Route(a, "") <= Route(b, key)
    ensures a == b
  {
    assert Route(b, key) == Route(a, "") + Route(b, key)[|a| + 2..];
    SlashFreeRoutes(a, Route(b, key)[|a| + 2..], b, key);
  }

  lemma SlashFreeRoutes(b1: string, k1: string, b2: string, k2: string)
    requires '/' !in b1 && '/' !in b2 && Route(b1, k1) == Route(b2, k2)
    ensures b1 == b2 && k1 == k2
  {
    SlashFreeNamesAreUnnested({b1, b2});
    RouteCollision(b1, k1, b2, k2);
  }

  lemma HostedPath(bs: seq<Bucket>, s: State, i: nat, key: string, route: string)
    requires i < |bs| && HostedRequest(bs, s, i, key, route)
    ensures ParseVirtualPrefix(route).None?
    ensures forall j | 0 <= j < |bs| && Route(bs[j].name, "") <= route :: j == i
  {
    var name := bs[i].name;
    assert bs[i] in bs;
    assert Route("public", "") == "/public/" && Route("private", "") == "/private/";
    if "/public/" <= route { PrefixNamesBucket("public", name, key); }
    if "/private/" <= route { PrefixNamesBucket("private", name, key); }
    forall j | 0 <= j < |bs| && Route(bs[j].name, "") <= route ensures j == i {
      assert bs[j] in bs;
      PrefixNamesBucket(bs[j].name, name, key);
    }
  }

  lemma HostedHolder(bs: seq<Bucket>, st: Objects, i: nat, key: string)
    requires i < |bs| && DistinctNames(bs) && forall b <- bs :: '/' !in b.name
    ensures var found := Found(bs, st, key);
            found.Some? && found.value.route == Route(bs[i].name, key) <==> FirstHolder(bs, st, key) == i
  {
    var h := FirstHolder(bs, st, key);
    if h < |bs| && Route(bs[h].name, key) == Route(bs[i].name, key) {
      assert bs[h] in bs && bs[i] in bs;
      SlashFreeRoutes(bs[h].name, key, bs[i].name, key);
    }
    assert FirstHolder(bs, st, key) == i ==> Has(bs[i], st, key);
  }

  lemma HostedRequestFacts(bs: seq<Bucket>, s: State, st: Objects, i: nat, key: string, route: string)
    requires i < |bs| && HostedRequest(bs, s, i, key, route)
    ensures HostedFacts(bs, s, st, i, key, route)
  {
    HostedPath(bs, s, i, key, route);
    HostedHolder(bs, st, i, key);
    assert bs[i] in bs && route == Route(bs[i].name, "") + key;
    if route in s.byRoute {
      var k := s.byRoute[route];
      SlashFreeRoutes(s.byKey[k].bucket, k, bs[i].name, key);
    }
  }

  ghost predicate HeldTwiceBefore(bs: seq<Bucket>, st: Objects, key: string, n: nat)
    requires n <= |bs|
  {
    exists i, j | 0 <= i < j < n :: Has(bs[i], st, key) && Has(bs[j], st, key)
  }

  /** Relocate's count of the holders among the first n buckets, as far as it is used. */
  ghost predicate Counted(bs: seq<Bucket>, st: Objects, key: string, n: nat, found: int)
    requires n <= |bs|
  {
    found >= 0 && (found > 0 <==> FirstHolder(bs, st, key) < n) && (found > 1 <==> HeldTwiceBefore(bs, st, key, n))
  }

  /** Relocate's target variables after the first n buckets. */
  ghost predicate Targeted(bs: seq<Bucket>, st: Objects, key: string, n: nat, bucket: string, obj: Meta)
    requires n <= |bs|
  {
    var t := Target(bs, st, key, n);
    if t == |bs| then bucket == "" else bucket == bs[t].name && obj == MetaOf(st, bucket, key)
  }

  lemma CountedStep(bs: seq<Bucket>, st: Objects, key: string, i: nat, found: int)
    requires i < |bs| && Counted(bs, st, key, i, found)
    ensures Counted(bs, st, key, i + 1, if Has(bs[i], st, key) then found + 1 else found)
  {
    HeldTwiceStep(bs, st, key, i);
  }

  lemma TargetedStep(bs: seq<Bucket>, st: Objects, key: string, i: nat, bucket: string, obj: Meta)
    requires i < |bs| && Targeted(bs, st, key, i, bucket, obj)
    ensures if Has(bs[i], st, key) && bucket == ""
            then Targeted(bs, st, key, i + 1, bs[i].name, MetaOf(st, bs[i].name, key))
            else Targeted(bs, st, key, i + 1, bucket, obj)
  {
  }

  lemma HeldTwiceStep(bs: seq<Bucket>, st: Objects, key: string, i: nat)
    requires i < |bs|
    ensures HeldTwiceBefore(bs, st, key, i + 1) <==>
            HeldTwiceBefore(bs, st, key, i) || (FirstHolder(bs, st, key) < i && Has(bs[i], st, key))
  {
  }
}
