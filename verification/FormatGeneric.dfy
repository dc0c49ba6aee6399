/** The flat bucket/key routing format, shared by every format's Route. */
module GenericFormat {
  import opened Outcomes
  import opened Strings

  function Route(bucket: string, key: string): string {
    "/" + bucket + "/" + key
  }

  /** The pairs a route can be read back into. */
  predicate Routable(bucket: string, key: string) {
    bucket != "" && key != "" && '/' !in bucket
  }

  /** A route's first segment is its bucket, the rest its key. */
  function ParseRoute(route: string): Option<(string, string)> {
    match Cut(TrimPrefix(route, "/"), '/')
    case None => None
    case Some((b, k)) => if b == "" || k == "" then None else Some((b, k))
  }

  /** A path parses to exactly the routable pair it spells, with or without the leading slash. */
  lemma ParseRouteIff(route: string, bucket: string, key: string)
    ensures ParseRoute(route) == Some((bucket, key)) <==>
            Routable(bucket, key) && TrimPrefix(route, "/") == bucket + "/" + key
  {
    if '/' !in bucket { CutOf(bucket, '/', key); }
  }

  lemma TrimmedRoute(bucket: string, key: string)
    ensures TrimPrefix(Route(bucket, key), "/") == bucket + "/" + key
  {
    assert Route(bucket, key) == "/" + (bucket + "/" + key);
    assert TrimPrefix(Route(bucket, key), "/") == Route(bucket, key)[1..];
  }

  /** Reading a printed route gives the pair back exactly when the pair is routable. */
  lemma RouteRoundTrip(bucket: string, key: string)
    ensures ParseRoute(Route(bucket, key)) == Some((bucket, key)) <==> Routable(bucket, key)
  {
    TrimmedRoute(bucket, key);
    ParseRouteIff(Route(bucket, key), bucket, key);
  }

  /** A bucket name hides another when it is a leading directory of it. */
  predicate Nests(outer: string, inner: string) {
    outer + "/" <= inner
  }

  /** Two different pairs share a route only if one bucket name nests in the other. */
  lemma RouteCollision(b1: string, k1: string, b2: string, k2: string)
    requires Route(b1, k1) == Route(b2, k2)
    ensures (b1 == b2 && k1 == k2) || Nests(b1, b2) || Nests(b2, b1)
  {
    var r := Route(b1, k1);
    assert r[1..] == b1 + "/" + k1 == b2 + "/" + k2;
    assert r[1..][..|b1|] == b1 && r[1..][..|b2|] == b2;
    if |b1| == |b2| {
      assert k1 == r[1..][|b1| + 1..] == k2;
    } else if |b1| < |b2| {
      assert b2[..|b1| + 1] == r[1..][..|b1| + 1] == b1 + "/";
    } else {
      assert b1[..|b2| + 1] == r[1..][..|b2| + 1] == b2 + "/";
    }
  }

  /** Nested names always admit a collision: the longer name's key can be written under the shorter. */
  lemma NestedNamesCollide(outer: string, inner: string, key: string)
    requires Nests(outer, inner)
    ensures Route(outer, inner[|outer| + 1..] + "/" + key) == Route(inner, key)
  {
  }
}
