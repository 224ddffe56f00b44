/** The records the dashboard works on: the CrossRef work record (the
    `message` of a CrossRef works response), the OpenAlex work record and its
    normalised form, and the publication record the loader builds from them. */
module Records {
  import opened Wrappers
  import opened Strings

  /** A CrossRef author entry; a missing name part is JavaScript `undefined`. */
  datatype Person = Person(given: Option<string>, family: Option<string>)

  /** The CrossRef fields the loader reads. `issued` holds the `date-parts`
      of the `issued` date, each part possibly `null`. */
  datatype Work = Work(
    author: Option<seq<Person>>,
    title: Option<seq<string>>,
    containerTitle: Option<seq<string>>,
    issued: Option<seq<seq<Option<int>>>>,
    volume: Option<string>,
    issue: Option<string>,
    page: Option<string>)

  /** One entry of OpenAlex's `counts_by_year`. */
  datatype YearCount = YearCount(year: int, citedByCount: int)

  /** The OpenAlex fields the loader reads, as the service sends them. */
  datatype OpenAlexWork = OpenAlexWork(citedByCount: Option<int>, countsByYear: Option<seq<YearCount>>)

  /** OpenAlex data after `fetchOpenAlex` has normalised it. */
  datatype Metrics = Metrics(citations: int, history: seq<YearCount>)

  /** The `year` of a publication: a number, `null` (a null date part),
      the placeholder "—" (no `issued` date) or `undefined` (an empty first
      date part). */
  datatype Year = Num(n: int) | Null | Dash | Undefined

  /** The record `loadPublications` pushes for each loaded DOI. */
  datatype Publication = Publication(
    title: string,
    authors: string,
    journal: string,
    year: Year,
    volume: string,
    issue: string,
    pages: string,
    citations: int,
    doi: string)

  /** `fetchOpenAlex`'s normalisation: `cited_by_count || 0` and
      `counts_by_year || []`. */
  function Normalize(w: OpenAlexWork): (m: Metrics)
    ensures m.citations == (if w.citedByCount.Some? then w.citedByCount.value else 0)
    ensures m.history == (if w.countsByYear.Some? then w.countsByYear.value else [])
  {
    Metrics(w.citedByCount.GetOr(0), w.countsByYear.GetOr([]))
  }

  /** A value interpolated into a template string: `undefined` prints as such. */
  function Interpolate(s: Option<string>): string {
    s.GetOr("undefined")
  }

  /** `${a.given} ${a.family}`. */
  function PersonName(p: Person): string {
    Interpolate(p.given) + " " + Interpolate(p.family)
  }

  function PersonNames(ps: seq<Person>): (r: seq<string>)
    ensures |r| == |ps|
    ensures forall i :: 0 <= i < |ps| ==> r[i] == PersonName(ps[i])
  {
    seq(|ps|, i requires 0 <= i < |ps| => PersonName(ps[i]))
  }

  /** The authors display string: the names joined by ", ", or
      "Unknown authors" when CrossRef gives no author list. */
  function AuthorsDisplay(w: Work): (r: string)
    ensures w.author.None? ==> r == "Unknown authors"
    ensures w.author.Some? ==> r == Join(PersonNames(w.author.value), ", ")
  {
    match w.author
    case None => "Unknown authors"
    case Some(ps) => Join(PersonNames(ps), ", ")
  }

  /** The first element of a CrossRef string array, or `default` when the
      array is missing or empty. */
  function FirstOr(a: Option<seq<string>>, default: string): (r: string)
    ensures (a.None? || a.value == []) ==> r == default
    ensures a.Some? && a.value != [] ==> r == a.value[0]
  {
    if a.Some? && a.value != [] then a.value[0] else default
  }

  /** The title and journal code as written: `a ? a[0] : default`. An empty
      array is truthy, so it yields `undefined` (here `None`) instead of the
      default; in every other case it agrees with `FirstOr`. */
  function FirstAsWritten(a: Option<seq<string>>, default: string): (r: Option<string>)
    ensures r.None? <==> a == Some([])
    ensures a != Some([]) ==> r == Some(FirstOr(a, default))
  {
    match a
    case None => Some(default)
    case Some(xs) => if xs == [] then None else Some(xs[0])
  }

  /** `crossref.issued ? crossref.issued["date-parts"][0][0] : "—"`.
      Indexing an empty `date-parts` array throws; an empty first part
      yields `undefined`. */
  function YearOf(w: Work): (r: Result<Year>)
    ensures r.Thrown? <==> w.issued == Some([])
    ensures w.issued.None? ==> r == Ok(Dash)
    ensures w.issued.Some? && w.issued.value != [] && w.issued.value[0] == [] ==> r == Ok(Undefined)
    ensures r.Ok? && w.issued.Some? && w.issued.value[0] != [] ==>
              r.value == (if w.issued.value[0][0].Some? then Num(w.issued.value[0][0].value) else Null)
  {
    match w.issued
    case None => Ok(Dash)
    case Some(parts) =>
      if parts == [] then Thrown
      else if parts[0] == [] then Ok(Undefined)
      else match parts[0][0]
        case Some(y) => Ok(Num(y))
        case None => Ok(Null)
  }

  /** The publication record built from a DOI's CrossRef and OpenAlex data,
      with a fixed default for every missing field. Only a date without any
      date parts makes it throw. */
  function BuildPublication(doi: string, crossref: Work, openalex: Metrics): (r: Result<Publication>)
    ensures r.Thrown? <==> crossref.issued == Some([])
    ensures r.Ok? ==> r.value.year == YearOf(crossref).value
    ensures r.Ok? ==> r.value.authors == AuthorsDisplay(crossref)
    ensures r.Ok? ==> (crossref.title.None? ==> r.value.title == "Untitled")
    ensures r.Ok? ==> (crossref.containerTitle.None? ==> r.value.journal == "Unknown journal")
    ensures r.Ok? ==> (crossref.volume.None? ==> r.value.volume == "")
    ensures r.Ok? ==> (crossref.issue.None? ==> r.value.issue == "")
    ensures r.Ok? ==> (crossref.page.None? ==> r.value.pages == "")
    ensures r.Ok? ==> r.value.title == FirstOr(crossref.title, "Untitled")
    ensures r.Ok? ==> r.value.journal == FirstOr(crossref.containerTitle, "Unknown journal")
    ensures r.Ok? ==> r.value.volume == crossref.volume.GetOr("")
    ensures r.Ok? ==> r.value.issue == crossref.issue.GetOr("")
    ensures r.Ok? ==> r.value.pages == crossref.page.GetOr("")
    ensures r.Ok? ==> r.value.citations == openalex.citations && r.value.doi == doi
  {
    match YearOf(crossref)
    case Thrown => Thrown
    case Ok(year) =>
      Ok(Publication(
        title := FirstOr(crossref.title, "Untitled"),
        authors := AuthorsDisplay(crossref),
        journal := FirstOr(crossref.containerTitle, "Unknown journal"),
        year := year,
        volume := crossref.volume.GetOr(""),
        issue := crossref.issue.GetOr(""),
        pages := crossref.page.GetOr(""),
        citations := openalex.citations,
        doi := doi))
  }
}
