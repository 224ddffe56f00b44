/** What the dashboard script takes from its surroundings, injected: the
    clock behind `Date.now()` and the two metadata services behind `fetch`. */
module Environment {
  import opened Wrappers
  import opened Records

  /** `Date.now()`: the k-th reading of the clock is `readings(k)`. */
  class Clock {
    const readings: nat -> int
    var ticks: nat

    constructor (readings: nat -> int)
      ensures this.readings == readings && ticks == 0
    {
      this.readings := readings;
      ticks := 0;
    }

    method Now() returns (t: int)
      modifies this
      ensures t == readings(old(ticks)) && ticks == old(ticks) + 1
    {
      t := readings(ticks);
      ticks := ticks + 1;
    }
  }

  /** A request sent to one of the two services. */
  datatype Request = CrossRefRequest(doi: string) | OpenAlexRequest(doi: string)

  /** What each service answers for a DOI; `None` is a network or decoding
      failure, which makes the `await` throw. */
  datatype Services = Services(
    crossref: string -> Option<Work>,
    openalex: string -> Option<OpenAlexWork>)

  /** The network, recording every request in the order it is sent. */
  class Network {
    const services: Services
    var log: seq<Request>

    constructor (services: Services)
      ensures this.services == services && log == []
    {
      this.services := services;
      log := [];
    }

    /** `fetchCrossRef`: the `message` of the CrossRef works response. */
    method FetchCrossRef(doi: string) returns (r: Result<Work>)
      modifies this
      ensures log == old(log) + [CrossRefRequest(doi)]
      ensures r == (match services.crossref(doi) case Some(w) => Ok(w) case None => Thrown)
    {
      log := log + [CrossRefRequest(doi)];
      r := match services.crossref(doi) case Some(w) => Ok(w) case None => Thrown;
    }

    /** `fetchOpenAlex`: the OpenAlex work, normalised. */
    method FetchOpenAlex(doi: string) returns (r: Result<Metrics>)
      modifies this
      ensures log == old(log) + [OpenAlexRequest(doi)]
      ensures r == (match services.openalex(doi) case Some(w) => Ok(Normalize(w)) case None => Thrown)
    {
      log := log + [OpenAlexRequest(doi)];
      r := match services.openalex(doi) case Some(w) => Ok(Normalize(w)) case None => Thrown;
    }
  }
}
