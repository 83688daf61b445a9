/**
 * The service worker: on install it opens one named cache and bulk-adds the asset manifest;
 * on every fetch it answers from the caches, falling back to the network.
 * The network is an oracle from request to response (`None` is a network error).
 */
module ServiceWorker {
  import opened Common

  /** A request, identified by its URL. */
  type Request = string

  datatype Response = Response(status: int, body: string)

  type Bucket = map<Request, Response>

  type Network = Request -> Option<Response>

  const CacheName: string := "fruit-tree-map-v1"

  /** `ASSETS`: the app shell that install caches. */
  const Assets: seq<Request> := [
    "./",
    "./index.html",
    "./style.css",
    "./app.js",
    "./manifest.json",
    "https://unpkg.com/leaflet@1.9.4/dist/leaflet.css",
    "https://unpkg.com/leaflet@1.9.4/dist/leaflet.js",
    "https://cdnjs.cloudflare.com/ajax/libs/font-awesome/6.4.0/css/all.min.css",
    "https://raw.githubusercontent.com/pointhi/leaflet-color-markers/master/img/markers/marker-icon-2x-green.png",
    "https://cdnjs.cloudflare.com/ajax/libs/leaflet/0.7.7/images/marker-shadow.png"
  ]

  predicate Distinct(reqs: seq<Request>) {
    forall i, j :: 0 <= i < j < |reqs| ==> reqs[i] != reqs[j]
  }

  /** The manifest lists no request twice, which `addAll` would reject. */
  lemma AssetsDistinct()
    ensures Distinct(Assets) && |Assets| == 10
  {
  }

  /** What `addAll` accepts from a fetch: a response with an ok status (200-299) that is not partial (206). */
  predicate Storable(r: Option<Response>) {
    r.Some? && 200 <= r.value.status <= 299 && r.value.status != 206
  }

  /** The fetch phase of `addAll`: every response in order, or nothing if any fetch fails. */
  function FetchAll(reqs: seq<Request>, network: Network): (rs: Option<seq<Response>>)
    ensures rs.Some? <==> forall i :: 0 <= i < |reqs| ==> Storable(network(reqs[i]))
    ensures rs.Some? ==> |rs.value| == |reqs| && forall i :: 0 <= i < |reqs| ==> rs.value[i] == network(reqs[i]).value
  {
    if reqs == [] then Some([])
    else if !Storable(network(reqs[0])) then None
    else
      match FetchAll(reqs[1..], network)
      case None => None
      case Some(rest) => Some([network(reqs[0]).value] + rest)
  }

  /** The commit phase of `addAll`: put every request with its response. */
  function PutAll(bucket: Bucket, reqs: seq<Request>, rs: seq<Response>): (b: Bucket)
    requires |rs| == |reqs| && Distinct(reqs)
    ensures b.Keys == bucket.Keys + (set r | r in reqs)
    ensures forall i :: 0 <= i < |reqs| ==> b[reqs[i]] == rs[i]
    ensures forall r :: r in bucket && r !in reqs ==> b[r] == bucket[r]
    decreases |reqs|
  {
    if reqs == [] then bucket
    else
      var b := PutAll(bucket[reqs[0] := rs[0]], reqs[1..], rs[1..]);
      assert forall i :: 1 <= i < |reqs| ==> reqs[i] == reqs[1..][i - 1];
      b
  }

  /**
   * `cache.addAll(reqs)`: all or nothing. It fails on a repeated request or on any fetch that is
   * not storable, and then the bucket is left as it was; otherwise every response is stored.
   */
  function AddAll(bucket: Bucket, reqs: seq<Request>, network: Network): (r: Option<Bucket>)
    ensures r.Some? <==> Distinct(reqs) && forall i :: 0 <= i < |reqs| ==> Storable(network(reqs[i]))
    ensures r.Some? ==> r.value.Keys == bucket.Keys + (set q | q in reqs)
    ensures r.Some? ==> forall i :: 0 <= i < |reqs| ==> r.value[reqs[i]] == network(reqs[i]).value
    ensures r.Some? ==> forall q :: q in bucket && q !in reqs ==> r.value[q] == bucket[q]
  {
    if !Distinct(reqs) then None
    else
      match FetchAll(reqs, network)
      case None => None
      case Some(rs) => Some(PutAll(bucket, reqs, rs))
  }

  /** Adding the same manifest again with the same network answers changes nothing. */
  lemma AddAllIdempotent(bucket: Bucket, reqs: seq<Request>, network: Network)
    requires AddAll(bucket, reqs, network).Some?
    ensures AddAll(AddAll(bucket, reqs, network).value, reqs, network) == AddAll(bucket, reqs, network)
  {
    var once := AddAll(bucket, reqs, network).value;
    var twice := AddAll(once, reqs, network).value;
    forall q | q in twice ensures q in once && twice[q] == once[q] {
      if q in reqs {
        var i :| 0 <= i < |reqs| && reqs[i] == q;
      }
    }
    assert twice == once;
  }

  predicate Holds(buckets: map<string, Bucket>, name: string, req: Request) {
    name in buckets && req in buckets[name]
  }

  /** The position of the first cache, in creation order, that holds the request (`|names|` if none). */
  function FirstHolder(names: seq<string>, buckets: map<string, Bucket>, req: Request): (k: nat)
    ensures k <= |names|
    ensures forall j :: 0 <= j < k ==> !Holds(buckets, names[j], req)
    ensures k < |names| ==> Holds(buckets, names[k], req)
  {
    if names == [] then 0
    else if Holds(buckets, names[0], req) then 0
    else 1 + FirstHolder(names[1..], buckets, req)
  }

  /** `caches.match(request)`: the response from the first cache that holds the request. */
  function MatchIn(names: seq<string>, buckets: map<string, Bucket>, req: Request): (r: Option<Response>)
    ensures r.None? <==> forall i :: 0 <= i < |names| ==> !Holds(buckets, names[i], req)
    ensures r.Some? ==>
              exists k :: && 0 <= k < |names| && Holds(buckets, names[k], req)
                          && (forall j :: 0 <= j < k ==> !Holds(buckets, names[j], req))
                          && r.value == buckets[names[k]][req]
  {
    var k := FirstHolder(names, buckets, req);
    if k < |names| then Some(buckets[names[k]][req]) else None
  }

  /** A request held by any listed cache is matched. */
  lemma {:induction false} HeldIsMatched(names: seq<string>, buckets: map<string, Bucket>, req: Request, name: string)
    requires name in names && Holds(buckets, name, req)
    ensures MatchIn(names, buckets, req).Some?
  {
    var i :| 0 <= i < |names| && names[i] == name;
    assert FirstHolder(names, buckets, req) <= i;
  }

  /** Where the fetch handler's answer came from. */
  datatype Served = FromCache(response: Response) | FromNetwork(result: Option<Response>)

  /** The fetch handler: `caches.match(request)`, else `fetch(request)`. It reads the caches and never writes them. */
  function HandleFetch(names: seq<string>, buckets: map<string, Bucket>, req: Request, network: Network): (s: Served)
    ensures s.FromCache? <==> MatchIn(names, buckets, req).Some?
    ensures s.FromCache? ==> Some(s.response) == MatchIn(names, buckets, req)
    ensures s.FromNetwork? ==> s.result == network(req)
  {
    match MatchIn(names, buckets, req)
    case Some(r) => FromCache(r)
    case None => FromNetwork(network(req))
  }

  /** A cache hit does not depend on the network at all. */
  lemma HitIgnoresNetwork(names: seq<string>, buckets: map<string, Bucket>, req: Request, name: string,
                          n1: Network, n2: Network)
    requires name in names && Holds(buckets, name, req)
    ensures HandleFetch(names, buckets, req, n1) == HandleFetch(names, buckets, req, n2)
    ensures HandleFetch(names, buckets, req, n1).FromCache?
  {
    HeldIsMatched(names, buckets, req, name);
  }

  /** The origin's `CacheStorage`: named caches, listed in creation order. */
  class CacheStorage {
    var names: seq<string>
    var buckets: map<string, Bucket>

    ghost predicate Valid()
      reads this
    {
      (forall n :: n in names <==> n in buckets) && forall i, j :: 0 <= i < j < |names| ==> names[i] != names[j]
    }

    constructor ()
      ensures Valid() && names == [] && buckets == map[]
    {
      names := [];
      buckets := map[];
    }

    /** `caches.open(name)`: the cache of that name, created empty if it does not exist. */
    method Open(name: string)
      requires Valid()
      modifies this
      ensures Valid()
      ensures name in old(buckets) ==> names == old(names) && buckets == old(buckets)
      ensures name !in old(buckets) ==> names == old(names) + [name] && buckets == old(buckets)[name := map[]]
      ensures forall n :: n in old(buckets) ==> n in buckets && buckets[n] == old(buckets)[n]
    {
      if name !in buckets {
        names := names + [name];
        buckets := buckets[name := map[]];
      }
    }

    /** `cache.addAll(reqs)` on the existing cache `name`: on failure nothing changes. */
    method AddAllTo(name: string, reqs: seq<Request>, network: Network) returns (ok: bool)
      requires Valid() && name in buckets
      modifies this`buckets
      ensures Valid()
      ensures ok <==> AddAll(old(buckets)[name], reqs, network).Some?
      ensures ok ==> buckets == old(buckets)[name := AddAll(old(buckets)[name], reqs, network).value]
      ensures !ok ==> buckets == old(buckets)
      ensures forall n :: n in old(buckets) && n != name ==> n in buckets && buckets[n] == old(buckets)[n]
      ensures ok ==> forall i :: 0 <= i < |reqs| ==> reqs[i] in buckets[name] && buckets[name][reqs[i]] == network(reqs[i]).value
      ensures ok ==> forall i :: 0 <= i < |reqs| ==> HandleFetch(names, buckets, reqs[i], network).FromCache?
    {
      var added := AddAll(buckets[name], reqs, network);
      if added.None? {
        return false;
      }
      buckets := buckets[name := added.value];
      forall i | 0 <= i < |reqs| ensures HandleFetch(names, buckets, reqs[i], network).FromCache? {
        HeldIsMatched(names, buckets, reqs[i], name);
      }
      return true;
    }

    /** Open the cache `name` and `addAll(manifest)` into it. */
    method OpenAndAddAll(name: string, manifest: seq<Request>, network: Network) returns (ok: bool)
      requires Valid() && Distinct(manifest)
      modifies this
      ensures Valid()
      ensures name in buckets
      ensures name in old(buckets) ==> names == old(names)
      ensures name !in old(buckets) ==> names == old(names) + [name]
      ensures ok <==> forall i :: 0 <= i < |manifest| ==> Storable(network(manifest[i]))
      ensures !ok ==> buckets == old(buckets)[name := if name in old(buckets) then old(buckets)[name] else map[]]
      ensures ok ==> buckets.Keys == old(buckets).Keys + {name}
      ensures ok ==> forall n :: n in old(buckets) && n != name ==> buckets[n] == old(buckets)[n]
      ensures ok ==> forall i :: 0 <= i < |manifest| ==>
                manifest[i] in buckets[name] && buckets[name][manifest[i]] == network(manifest[i]).value
      ensures ok ==> forall i :: 0 <= i < |manifest| ==> HandleFetch(names, buckets, manifest[i], network).FromCache?
    {
      Open(name);
      ok := AddAllTo(name, manifest, network);
    }

    /** The install handler: open `fruit-tree-map-v1`, then `addAll(ASSETS)` into it. */
    method Install(network: Network) returns (ok: bool)
      requires Valid()
      modifies this
      ensures Valid()
      ensures CacheName in buckets
      ensures CacheName in old(buckets) ==> names == old(names)
      ensures CacheName !in old(buckets) ==> names == old(names) + [CacheName]
      ensures ok <==> forall i :: 0 <= i < |Assets| ==> Storable(network(Assets[i]))
      ensures !ok ==> buckets == old(buckets)[CacheName := if CacheName in old(buckets) then old(buckets)[CacheName] else map[]]
      ensures ok ==> buckets.Keys == old(buckets).Keys + {CacheName}
      ensures ok ==> forall n :: n in old(buckets) && n != CacheName ==> buckets[n] == old(buckets)[n]
      ensures ok ==> forall i :: 0 <= i < |Assets| ==>
                Assets[i] in buckets[CacheName] && buckets[CacheName][Assets[i]] == network(Assets[i]).value
      ensures ok ==> forall i :: 0 <= i < |Assets| ==> HandleFetch(names, buckets, Assets[i], network).FromCache?
    {
      AssetsDistinct();
      ok := OpenAndAddAll(CacheName, Assets, network);
    }
  }
}
