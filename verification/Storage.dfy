/** Object storage and the upstream of proxy repositories, by their interface contracts. Any call
    may fail; the ghost counter lets contracts speak about runs in which none did. A failed
    write or delete leaves storage as it was. */
module Storage {
  import opened Outcomes
  import opened CatalogState

  datatype Object = Object(lastModified: string, body: Body)

  /** Objects by bucket and key. */
  type Objects = map<(string, string), Object>

  /** Metadata as listings and HEAD requests report it. */
  datatype Meta = Meta(key: string, size: int, lastModified: string)

  function MetaOf(objects: Objects, bucket: string, key: string): Meta
    requires (bucket, key) in objects
  {
    var o := objects[(bucket, key)];
    Meta(key, o.body.length, o.lastModified)
  }

  function Head(objects: Objects, bucket: string, key: string): Option<Meta> {
    if (bucket, key) in objects then Some(MetaOf(objects, bucket, key)) else None
  }

  /** A complete listing of one bucket, each key once, in no particular order. */
  ghost predicate Lists(objects: Objects, bucket: string, metas: seq<Meta>) {
    && (forall m: Meta :: m in metas <==> Head(objects, bucket, m.key) == Some(m))
    && (forall i, j | 0 <= i < j < |metas| :: metas[i].key != metas[j].key)
  }

  function Content(objects: Objects, bucket: string, key: string): Body {
    if (bucket, key) in objects then objects[(bucket, key)].body else Body(0, None)
  }

  class Store {
    var objects: Objects
    ghost var failures: nat

    /** Whether the next call reaches the backend. */
    method Reach() returns (up: bool)
      modifies this`failures
      ensures failures == old(failures) + if up then 0 else 1
    {
      up := *;
      if !up { failures := failures + 1; }
    }

    method ListObjects(bucket: string) returns (r: Result<seq<Meta>, ()>)
      modifies this`failures
      ensures failures == old(failures) + if r.Ok? then 0 else 1
      ensures r.Ok? ==> Lists(objects, bucket, r.value)
    {
      var up := Reach();
      if !up {
        return Err(());
      }
      var metas: seq<Meta> := [];
      var todo := set p | p in objects && p.0 == bucket :: p.1;
      while todo != {}
        invariant forall k <- todo :: (bucket, k) in objects
        invariant forall m: Meta :: m in metas <==> Head(objects, bucket, m.key) == Some(m) && m.key !in todo
        invariant forall i, j | 0 <= i < j < |metas| :: metas[i].key != metas[j].key
        decreases todo
      {
        var k :| k in todo;
        metas := metas + [MetaOf(objects, bucket, k)];
        todo := todo - {k};
      }
      return Ok(metas);
    }

    method HeadObject(bucket: string, key: string) returns (r: Result<Option<Meta>, ()>)
      modifies this`failures
      ensures failures == old(failures) + if r.Ok? then 0 else 1
      ensures r.Ok? ==> r.value == Head(objects, bucket, key)
    {
      var up := Reach();
      r := if up then Ok(Head(objects, bucket, key)) else Err(());
    }

    method GetObject(bucket: string, key: string) returns (r: Result<Body, ()>)
      modifies this`failures
      ensures failures == old(failures) + if r.Ok? then 0 else 1
      ensures r.Ok? ==> r.value == Content(objects, bucket, key)
    {
      var up := Reach();
      r := if up then Ok(Content(objects, bucket, key)) else Err(());
    }

    /** The backend stamps the object with a time of its choosing. */
    method PutObject(bucket: string, key: string, body: Body) returns (ok: bool)
      modifies this
      ensures failures == old(failures) + if ok then 0 else 1
      ensures !ok ==> objects == old(objects)
      ensures ok ==> (bucket, key) in objects && objects[(bucket, key)].body == body
                     && objects == old(objects)[(bucket, key) := objects[(bucket, key)]]
    {
      ok := Reach();
      if ok {
        var stamp: string := *;
        objects := objects[(bucket, key) := Object(stamp, body)];
      }
    }

    method DeleteObject(bucket: string, key: string) returns (ok: bool)
      modifies this
      ensures failures == old(failures) + if ok then 0 else 1
      ensures objects == if ok then old(objects) - {(bucket, key)} else old(objects)
    {
      ok := Reach();
      if ok {
        objects := objects - {(bucket, key)};
      }
    }
  }

  /** An upstream repository: what it serves for a URL and key, or None for "not found". */
  class Fetcher {
    const upstream: (string, string) -> Option<Body>
    ghost var failures: nat

    constructor (upstream: (string, string) -> Option<Body>)
      ensures this.upstream == upstream
    {
      this.upstream := upstream;
    }

    method Fetch(url: string, key: string) returns (r: Result<Option<Body>, ()>)
      modifies this`failures
      ensures failures == old(failures) + if r.Ok? then 0 else 1
      ensures r.Ok? ==> r.value == upstream(url, key)
    {
      var up: bool := *;
      if !up {
        failures := failures + 1;
        return Err(());
      }
      return Ok(upstream(url, key));
    }
  }
}
