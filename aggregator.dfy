/** `fetchPublicationData`: read through the cache, and on a miss fetch from
    both services and write the cache. */
module Aggregator {
  import opened Wrappers
  import opened Records
  import opened Environment
  import opened Cache

  /** The part of the surroundings the aggregator changes: the cache store,
      the number of clock readings taken and the requests sent. */
  datatype World = World(store: Store, ticks: nat, log: seq<Request>)

  /** What `fetchPublicationData(doi)` returns, and the world after it. */
  function Resolve(readings: nat -> int, services: Services, w: World, doi: string): (r: (Result<Cached>, World))
    ensures w.log <= r.1.log && |r.1.log| <= |w.log| + 2
    ensures forall i :: |w.log| <= i < |r.1.log| ==> r.1.log[i].doi == doi
    ensures w.ticks <= r.1.ticks <= w.ticks + 2
    ensures r.1.log == w.log <==> Lookup(w.store, doi, readings(w.ticks)).Some?
  {
    var now := readings(w.ticks);
    var ticks := w.ticks + (if ReadsClock(w.store, doi) then 1 else 0);
    var store := AfterLookup(w.store, doi, now);
    match Lookup(w.store, doi, now)
    case Some(hit) => (Ok(hit), World(store, ticks, w.log))
    case None =>
      var log := w.log + [CrossRefRequest(doi)];
      match services.crossref(doi)
      case None => (Thrown, World(store, ticks, log))
      case Some(crossref) =>
        match services.openalex(doi)
        case None => (Thrown, World(store, ticks, log + [OpenAlexRequest(doi)]))
        case Some(raw) =>
          var openalex := Normalize(raw);
          (Ok(Cached(crossref, openalex)),
           World(Saved(store, doi, crossref, openalex, readings(ticks)), ticks + 1, log + [OpenAlexRequest(doi)]))
  }

  /** A cache hit returns the cached data and sends no request. */
  lemma ResolveHit(readings: nat -> int, services: Services, w: World, doi: string)
    requires Lookup(w.store, doi, readings(w.ticks)).Some?
    ensures Resolve(readings, services, w, doi).0 == Ok(Lookup(w.store, doi, readings(w.ticks)).value)
    ensures Resolve(readings, services, w, doi).1 == World(w.store, w.ticks + 1, w.log)
  {
  }

  /** A miss where both fetches succeed asks CrossRef, then OpenAlex, returns
      both answers and writes them to the cache, stamped with the next clock
      reading. */
  lemma ResolveMissFetched(readings: nat -> int, services: Services, w: World, doi: string)
    requires Lookup(w.store, doi, readings(w.ticks)).None?
    requires services.crossref(doi).Some? && services.openalex(doi).Some?
    ensures var (r, w') := Resolve(readings, services, w, doi);
      && r == Ok(Cached(services.crossref(doi).value, Normalize(services.openalex(doi).value)))
      && w'.log == w.log + [CrossRefRequest(doi), OpenAlexRequest(doi)]
      && w'.store[CacheKey(doi)] == Json(Entry(r.value.crossref, r.value.openalex, readings(w'.ticks - 1)))
  {
  }

  /** When either fetch fails the call throws and nothing is written: the
      store differs from before only by the eviction of an expired entry. */
  lemma ResolveFailureWritesNothing(readings: nat -> int, services: Services, w: World, doi: string)
    requires Resolve(readings, services, w, doi).0.Thrown?
    ensures Resolve(readings, services, w, doi).1.store == AfterLookup(w.store, doi, readings(w.ticks))
    ensures services.crossref(doi).None? ==> Resolve(readings, services, w, doi).1.log == w.log + [CrossRefRequest(doi)]
  {
  }

  /** Resolving one DOI leaves every other DOI's cached value alone. */
  lemma ResolveKeepsOthers(readings: nat -> int, services: Services, w: World, doi: string, other: string, now: int)
    requires other != doi
    ensures Lookup(Resolve(readings, services, w, doi).1.store, other, now) == Lookup(w.store, other, now)
  {
    CacheKeyInjective(doi, other);
  }

  /** The cache is transparent: a fresh entry holding what the services
      answer gives the same result as fetching anew. */
  lemma ResolveCacheTransparent(readings: nat -> int, services: Services, w: World, doi: string, ts: int)
    requires services.crossref(doi).Some? && services.openalex(doi).Some?
    requires CacheKey(doi) in w.store
    requires w.store[CacheKey(doi)] == Json(Entry(services.crossref(doi).value, Normalize(services.openalex(doi).value), ts))
    requires !Expired(ts, readings(w.ticks))
    ensures Resolve(readings, services, w, doi).0 == Resolve(readings, services, w.(store := w.store - {CacheKey(doi)}), doi).0
  {
  }

  /** What `fetchPublicationData(doi)` returns when it asks both services:
      the throw of either `fetch`, or both answers. */
  function Direct(services: Services, doi: string): (r: Result<Cached>)
    ensures r.Ok? <==> services.crossref(doi).Some? && services.openalex(doi).Some?
  {
    match services.crossref(doi)
    case None => Thrown
    case Some(crossref) =>
      match services.openalex(doi)
      case None => Thrown
      case Some(raw) => Ok(Cached(crossref, Normalize(raw)))
  }

  /** Every parsed entry in the store holds what the services answer for its
      DOI now: the state a cache written only by `fetchPublicationData`
      against unchanging services is in. */
  ghost predicate CacheConsistent(store: Store, services: Services) {
    forall d :: ReadsClock(store, d) ==>
      && services.crossref(d).Some? && services.openalex(d).Some?
      && store[CacheKey(d)].entry.crossref == services.crossref(d).value
      && store[CacheKey(d)].entry.openalex == Normalize(services.openalex(d).value)
  }

  /** An empty store is consistent with any services. */
  lemma EmptyCacheConsistent(services: Services)
    ensures CacheConsistent(map[], services)
  {
  }

  /** Read-through merge is idempotent: over a consistent cache, a hit and a
      miss both return what asking the services directly returns, and the
      cache stays consistent. */
  lemma ResolveConsistent(readings: nat -> int, services: Services, w: World, doi: string)
    requires CacheConsistent(w.store, services)
    ensures Resolve(readings, services, w, doi).0 == Direct(services, doi)
    ensures CacheConsistent(Resolve(readings, services, w, doi).1.store, services)
  {
    var now := readings(w.ticks);
    var store := AfterLookup(w.store, doi, now);
    assert CacheConsistent(store, services) by {
      forall d | ReadsClock(store, d)
        ensures && services.crossref(d).Some? && services.openalex(d).Some?
                && store[CacheKey(d)].entry.crossref == services.crossref(d).value
                && store[CacheKey(d)].entry.openalex == Normalize(services.openalex(d).value)
      {
        assert ReadsClock(w.store, d);
      }
    }
    if Lookup(w.store, doi, now).None? && services.crossref(doi).Some? && services.openalex(doi).Some? {
      var ts := readings(w.ticks + (if ReadsClock(w.store, doi) then 1 else 0));
      var saved := Saved(store, doi, services.crossref(doi).value, Normalize(services.openalex(doi).value), ts);
      assert Resolve(readings, services, w, doi).1.store == saved;
      forall d | ReadsClock(saved, d)
        ensures && services.crossref(d).Some? && services.openalex(d).Some?
                && saved[CacheKey(d)].entry.crossref == services.crossref(d).value
                && saved[CacheKey(d)].entry.openalex == Normalize(services.openalex(d).value)
      {
        CacheKeyInjective(d, doi);
        if d != doi {
          assert ReadsClock(store, d);
        }
      }
    }
  }

  /** `fetchPublicationData(doi)` against the cache, the clock and the network. */
  method FetchPublicationData(doi: string, cache: CacheStore, clock: Clock, net: Network) returns (r: Result<Cached>)
    modifies cache, clock, net
    ensures (r, World(cache.items, clock.ticks, net.log))
         == Resolve(clock.readings, net.services, World(old(cache.items), old(clock.ticks), old(net.log)), doi)
  {
    var cached := cache.Load(doi, clock);
    if cached.Some? {
      return Ok(cached.value);
    }
    var crossref := net.FetchCrossRef(doi);
    if crossref.Thrown? {
      return Thrown;
    }
    var openalex := net.FetchOpenAlex(doi);
    if openalex.Thrown? {
      return Thrown;
    }
    cache.Save(doi, crossref.value, openalex.value, clock);
    return Ok(Cached(crossref.value, openalex.value));
  }
}
