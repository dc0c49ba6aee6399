/** Configured repositories, their ranking, and the validation of virtual repositories. */
module Config {
  import opened Outcomes
  import opened Sequences
  import opened CatalogState

  datatype Kind = Hosted | Proxy | Virtual

  datatype Bucket = Bucket(
    name: string, manifestKey: string, isPublic: bool, kind: Kind,
    upstreamUrl: string, cacheTtl: int, members: seq<string>)
  {
    /** Only a virtual repository has no object storage of its own. */
    predicate HasStorage() {
      !kind.Virtual?
    }
  }

  /** Position of the first bucket of that name; unknown names rank after every bucket. */
  function BucketPriority(bs: seq<Bucket>, name: string): (r: nat)
    ensures r <= |bs|
    ensures r < |bs| ==> bs[r].name == name
    ensures forall j | 0 <= j < r :: bs[j].name != name
  {
    First(bs, (b: Bucket) => b.name == name)
  }

  function BucketByName(bs: seq<Bucket>, name: string): Option<Bucket> {
    var i := BucketPriority(bs, name);
    if i < |bs| then Some(bs[i]) else None
  }

  function BucketType(bs: seq<Bucket>, name: string): string {
    var b := BucketByName(bs, name);
    if b.Some? && b.value.isPublic then "public" else "private"
  }

  /** A name is public if its first bucket is; every other name, known or not, is private. */
  lemma BucketTypeIs(bs: seq<Bucket>, name: string)
    ensures BucketType(bs, name) ==
            if exists i | 0 <= i < |bs| ::
                 bs[i].name == name && bs[i].isPublic && forall j | 0 <= j < i :: bs[j].name != name
            then "public" else "private"
  {
    var r := BucketPriority(bs, name);
    assert r < |bs| && bs[r].isPublic ==> bs[r].name == name;
  }

  function RankingOf(bs: seq<Bucket>): Ranking {
    Ranking(name => BucketPriority(bs, name), name => BucketType(bs, name))
  }

  function Names(bs: seq<Bucket>): set<string> {
    set b | b in bs :: b.name
  }

  function StorageNames(bs: seq<Bucket>): set<string> {
    set b | b in bs && b.HasStorage() :: b.name
  }

  predicate DistinctNames(bs: seq<Bucket>) {
    forall i, j | 0 <= i < j < |bs| :: bs[i].name != bs[j].name
  }

  /** With distinct names a bucket's rank is its position. */
  lemma RankIsPosition(bs: seq<Bucket>, i: nat)
    requires DistinctNames(bs) && i < |bs|
    ensures BucketPriority(bs, bs[i].name) == i && BucketByName(bs, bs[i].name) == Some(bs[i])
    ensures BucketType(bs, bs[i].name) == "public" <==> bs[i].isPublic
  {
  }

  // ---------------------------------------------------------------------------------------
  // Loading
  // ---------------------------------------------------------------------------------------

  /** The bucket that a map filled in configuration order keeps for a name: the last one. */
  function LastByName(bs: seq<Bucket>, name: string): (r: Option<Bucket>)
    ensures r.None? ==> forall b <- bs :: b.name != name
    ensures r.Some? ==> exists i | 0 <= i < |bs| ::
              bs[i] == r.value && r.value.name == name && forall j | i < j < |bs| :: bs[j].name != name
  {
    if bs == [] then None
    else
      var n := |bs| - 1;
      assert bs == bs[..n] + [bs[n]];
      if bs[n].name == name then Some(bs[n])
      else
        var r := LastByName(bs[..n], name);
        assert forall i | 0 <= i < n :: bs[..n][i] == bs[i];
        r
  }

  predicate ValidMember(bs: seq<Bucket>, name: string) {
    var b := LastByName(bs, name);
    b.Some? && b.value.HasStorage()
  }

  /** The table keeps, for each name, the last bucket that bears it. */
  ghost predicate IndexesLast(bs: seq<Bucket>, byName: map<string, Bucket>) {
    forall n: string :: (if n in byName then Some(byName[n]) else None) == LastByName(bs, n)
  }

  method IndexByName(bs: seq<Bucket>) returns (byName: map<string, Bucket>)
    ensures IndexesLast(bs, byName)
  {
    byName := map[];
    for i := 0 to |bs|
      invariant IndexesLast(bs[..i], byName)
    {
      byName := byName[bs[i].name := bs[i]];
      assert bs[..i + 1][..i] == bs[..i];
    }
    assert bs[..|bs|] == bs;
  }

  method ValidateMembers(bs: seq<Bucket>, byName: map<string, Bucket>, members: seq<string>) returns (ok: bool)
    requires IndexesLast(bs, byName)
    ensures ok <==> forall m <- members :: ValidMember(bs, m)
  {
    for j := 0 to |members|
      invariant forall m <- members[..j] :: ValidMember(bs, m)
    {
      var name := members[j];
      assert (if name in byName then Some(byName[name]) else None) == LastByName(bs, name);
      if name !in byName || !byName[name].HasStorage() {
        assert name in members && !ValidMember(bs, name);
        return false;
      }
      assert members[..j + 1] == members[..j] + [name];
    }
    assert members[..|members|] == members;
    return true;
  }

  method ValidateVirtualRepoMembers(bs: seq<Bucket>, virtuals: seq<Bucket>) returns (ok: bool)
    ensures ok <==> forall v <- virtuals, m <- v.members :: ValidMember(bs, m)
  {
    var byName := IndexByName(bs);
    for i := 0 to |virtuals|
      invariant forall v <- virtuals[..i], m <- v.members :: ValidMember(bs, m)
    {
      var valid := ValidateMembers(bs, byName, virtuals[i].members);
      if !valid {
        assert virtuals[i] in virtuals;
        return false;
      }
      assert virtuals[..i + 1] == virtuals[..i] + [virtuals[i]];
    }
    assert virtuals[..|virtuals|] == virtuals;
    return true;
  }

  /** Some storage bucket, and no virtual one, bears the name. */
  ghost predicate NamesOnlyStorage(bs: seq<Bucket>, name: string) {
    (exists b :: b in bs && b.name == name) && (forall b <- bs | b.name == name :: b.HasStorage())
  }

  predicate VirtualsLast(bs: seq<Bucket>) {
    forall i, j | 0 <= i < j < |bs| :: bs[i].kind.Virtual? ==> bs[j].kind.Virtual?
  }

  /** Validation sees a name's last bucket, resolution its first; with virtual repositories
      configured last the two agree on whether the member is usable. */
  lemma ValidMemberIff(bs: seq<Bucket>, name: string)
    requires VirtualsLast(bs)
    ensures ValidMember(bs, name) <==> NamesOnlyStorage(bs, name)
    ensures ValidMember(bs, name) ==> BucketByName(bs, name).Some? && BucketByName(bs, name).value.HasStorage()
  {
  }

  /** Neither skip branch of virtual resolution can be taken. */
  ghost predicate NoSkippedMembers(bs: seq<Bucket>) {
    forall v <- bs | v.kind.Virtual? ::
      forall m <- v.members :: BucketByName(bs, m).Some? && BucketByName(bs, m).value.HasStorage()
  }

  /** The tail of Load: hosted buckets, then proxy, then virtual repositories, then validation.
      The three lists are what the environment parsers return. */
  method Load(hosted: seq<Bucket>, proxies: seq<Bucket>, virtuals: seq<Bucket>) returns (r: Option<seq<Bucket>>)
    requires forall b <- hosted :: b.kind.Hosted?
    requires forall b <- proxies :: b.kind.Proxy?
    requires forall b <- virtuals :: b.kind.Virtual?
    ensures r.Some? <==>
            forall v <- virtuals, m <- v.members :: NamesOnlyStorage(hosted + proxies + virtuals, m)
    ensures r.Some? ==> r.value == hosted + proxies + virtuals && NoSkippedMembers(r.value)
  {
    var buckets := hosted + proxies + virtuals;
    var ok := ValidateVirtualRepoMembers(buckets, virtuals);
    assert VirtualsLast(buckets);
    forall name ensures ValidMember(buckets, name) <==> NamesOnlyStorage(buckets, name) {
      ValidMemberIff(buckets, name);
    }
    if !ok {
      return None;
    }
    forall v, m | v in buckets && v.kind.Virtual? && m in v.members
      ensures BucketByName(buckets, m).Some? && BucketByName(buckets, m).value.HasStorage()
    {
      assert v in virtuals;
      ValidMemberIff(buckets, m);
    }
    return Some(buckets);
  }
}
