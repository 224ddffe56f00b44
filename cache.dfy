/** The time-boxed cache over the browser's key-value store: `getCacheKey`,
    `loadFromCache` and `saveToCache`. The store maps a key to the stored
    text; a text that is not a JSON cache entry is `Unparsable`, and a
    well-formed one is kept as the entry it encodes. */
module Cache {
  import opened Wrappers
  import opened Records
  import opened Environment

  /** `CACHE_DURATION_HOURS`. */
  const CacheDurationHours: int := 24

  /** The same bound in milliseconds. For the integer millisecond ages
      `Date.now()` produces, `age / 3_600_000 > 24` holds exactly when
      `age > 86_400_000`. */
  const CacheDurationMs: int := CacheDurationHours * 60 * 60 * 1000

  const KeyPrefix: string := "pubcache_"

  /** `getCacheKey`: the DOI behind the fixed prefix. */
  function CacheKey(doi: string): (k: string)
    ensures |k| == |KeyPrefix| + |doi|
    ensures k[..|KeyPrefix|] == KeyPrefix && k[|KeyPrefix|..] == doi
  {
    KeyPrefix + doi
  }

  /** A cache entry: both services' data and the time it was written. */
  datatype Entry = Entry(crossref: Work, openalex: Metrics, timestamp: int)

  /** A stored text: one that `JSON.parse` rejects, or an encoded entry. */
  datatype Raw = Unparsable | Json(entry: Entry)

  type Store = map<string, Raw>

  /** What a cache hit hands back to the aggregator. */
  datatype Cached = Cached(crossref: Work, openalex: Metrics)

  /** `ageHours > CACHE_DURATION_HOURS`, in milliseconds. */
  predicate Expired(timestamp: int, now: int) {
    now - timestamp > CacheDurationMs
  }

  /** `loadFromCache` reads the clock only after the stored text parses. */
  predicate ReadsClock(store: Store, doi: string) {
    CacheKey(doi) in store && store[CacheKey(doi)].Json?
  }

  /** The value `loadFromCache(doi)` returns when the clock reads `now`. */
  function Lookup(store: Store, doi: string, now: int): (r: Option<Cached>)
    ensures r.Some? ==> ReadsClock(store, doi)
    ensures r.Some? ==> AfterLookup(store, doi, now) == store
  {
    var key := CacheKey(doi);
    if key in store && store[key].Json? && !Expired(store[key].entry.timestamp, now) then
      Some(Cached(store[key].entry.crossref, store[key].entry.openalex))
    else
      None
  }

  /** The store after `loadFromCache(doi)`: an expired entry is removed. */
  function AfterLookup(store: Store, doi: string, now: int): (r: Store)
    ensures r.Keys <= store.Keys && store.Keys - r.Keys <= {CacheKey(doi)}
    ensures forall k :: k in r ==> r[k] == store[k]
  {
    var key := CacheKey(doi);
    if key in store && store[key].Json? && Expired(store[key].entry.timestamp, now) then
      store - {key}
    else
      store
  }

  /** The store after `saveToCache(doi, crossref, openalex)` at time `now`. */
  function Saved(store: Store, doi: string, crossref: Work, openalex: Metrics, now: int): (r: Store)
    ensures r.Keys == store.Keys + {CacheKey(doi)}
    ensures forall k :: k in store && k != CacheKey(doi) ==> r[k] == store[k]
    ensures r[CacheKey(doi)].Json? && r[CacheKey(doi)].entry.timestamp == now
  {
    store[CacheKey(doi) := Json(Entry(crossref, openalex, now))]
  }

  /** Different DOIs never share a cache key. */
  lemma CacheKeyInjective(a: string, b: string)
    ensures CacheKey(a) == CacheKey(b) ==> a == b
  {
  }

  /** Round trip: an entry read back within 24 hours of being written is
      exactly what was written, and the read leaves the store as it is. */
  lemma SaveThenLookup(store: Store, doi: string, crossref: Work, openalex: Metrics, t: int, t': int)
    requires t' - t <= CacheDurationMs
    ensures Lookup(Saved(store, doi, crossref, openalex, t), doi, t') == Some(Cached(crossref, openalex))
    ensures AfterLookup(Saved(store, doi, crossref, openalex, t), doi, t') == Saved(store, doi, crossref, openalex, t)
  {
  }

  /** Expiry: a parsed entry older than 24 hours reads as absent, and that one
      key, and nothing else, is removed. */
  lemma LookupExpired(store: Store, doi: string, now: int)
    requires CacheKey(doi) in store && store[CacheKey(doi)].Json?
    requires Expired(store[CacheKey(doi)].entry.timestamp, now)
    ensures Lookup(store, doi, now) == None
    ensures CacheKey(doi) !in AfterLookup(store, doi, now)
    ensures forall k :: k != CacheKey(doi) ==>
              (k in AfterLookup(store, doi, now) <==> k in store) &&
              (k in store ==> AfterLookup(store, doi, now)[k] == store[k])
  {
  }

  /** A missing key or a text that does not parse reads as absent, leaves the
      store unchanged and does not consult the clock. */
  lemma LookupUnparsable(store: Store, doi: string, now: int)
    requires CacheKey(doi) !in store || store[CacheKey(doi)] == Unparsable
    ensures Lookup(store, doi, now) == None
    ensures AfterLookup(store, doi, now) == store
    ensures !ReadsClock(store, doi)
  {
  }

  /** Writing one DOI's entry does not change what any other DOI reads. */
  lemma SaveKeepsOthers(store: Store, doi: string, other: string, crossref: Work, openalex: Metrics, t: int, now: int)
    requires other != doi
    ensures Lookup(Saved(store, doi, crossref, openalex, t), other, now) == Lookup(store, other, now)
    ensures ReadsClock(Saved(store, doi, crossref, openalex, t), other) == ReadsClock(store, other)
  {
    CacheKeyInjective(doi, other);
  }

  /** The browser's key-value store, restricted to the cache's keys. */
  class CacheStore {
    var items: Store

    constructor (items: Store)
      ensures this.items == items
    {
      this.items := items;
    }

    /** `loadFromCache(doi)`. */
    method Load(doi: string, clock: Clock) returns (r: Option<Cached>)
      modifies this, clock
      ensures r == Lookup(old(items), doi, clock.readings(old(clock.ticks)))
      ensures items == AfterLookup(old(items), doi, clock.readings(old(clock.ticks)))
      ensures clock.ticks == old(clock.ticks) + (if ReadsClock(old(items), doi) then 1 else 0)
    {
      var key := CacheKey(doi);
      if key !in items {
        return None;
      }
      match items[key]
      case Unparsable =>
        return None;
      case Json(e) =>
        var now := clock.Now();
        if Expired(e.timestamp, now) {
          items := items - {key};
          return None;
        }
        return Some(Cached(e.crossref, e.openalex));
    }

    /** `saveToCache(doi, crossref, openalex)`: overwrites unconditionally. */
    method Save(doi: string, crossref: Work, openalex: Metrics, clock: Clock)
      modifies this, clock
      ensures items == Saved(old(items), doi, crossref, openalex, clock.readings(old(clock.ticks)))
      ensures clock.ticks == old(clock.ticks) + 1
    {
      var now := clock.Now();
      items := items[CacheKey(doi) := Json(Entry(crossref, openalex, now))];
    }
  }
}
