/** `loadDOIs`, the per-DOI loop of `loadPublications` and the year options it
    derives, and the page state that `loadPublications`, `applyFilters`,
    `drawCitationChart` and `buildCoauthorNetwork` write, as the class
    `Dashboard`. */
module Loader {
  import opened Wrappers
  import opened Strings
  import opened Seqs
  import opened Sorting
  import opened Records
  import opened Environment
  import opened Cache
  import opened Aggregator
  import opened Citations
  import opened Coauthors
  import Filters

  /** The lines of the DOI list file.  */
  function Lines(text: string): seq<string> {
    TrimAll(Split(text, '\n'))
  }

  /** `text.split("\n").map(d => d.trim()).filter(d => d.length > 0)`. */
  function LoadDOIs(text: string): (dois: seq<string>)
    ensures |dois| <= |Split(text, '\n')|
    ensures forall i :: 0 <= i < |dois| ==> dois[i] != []
  {
    Filter(Lines(text), (d: string) => |d| > 0)
  }

  /** The DOIs are exactly the non-empty trimmed lines, each a single line
      with no white space at its ends. */
  lemma LoadDOIsMembers(text: string, d: string)
    ensures d in LoadDOIs(text) <==>
      d != [] && exists i :: 0 <= i < |Split(text, '\n')| && Trim(Split(text, '\n')[i]) == d
    ensures d in LoadDOIs(text) ==> IsTrimmed(d) && '\n' !in d
  {
    var lines := Split(text, '\n');
    FilterMembers(Lines(text), (d: string) => |d| > 0, d);
    if d in LoadDOIs(text) {
      var i :| 0 <= i < |lines| && Trim(lines[i]) == d;
      if '\n' in d {
        TrimKeeps(lines[i], '\n');
      }
    }
  }

  /** The lines of DOIs written one per line are the DOIs. */
  lemma LinesOfJoin(dois: seq<string>)
    requires dois != []
    requires forall i :: 0 <= i < |dois| ==> IsTrimmed(dois[i]) && '\n' !in dois[i]
    ensures Lines(Join(dois, "\n")) == dois
  {
    SplitJoin(dois, '\n');
    forall i | 0 <= i < |dois| ensures Trim(dois[i]) == dois[i] {
      TrimTrimmed(dois[i]);
    }
  }

  /** Round trip with the DOI list file: DOIs that are non-empty, trimmed
      and one line each, written one per line, are read back in order. */
  lemma LoadDOIsJoin(dois: seq<string>)
    requires forall i :: 0 <= i < |dois| ==> dois[i] != [] && IsTrimmed(dois[i]) && '\n' !in dois[i]
    ensures LoadDOIs(Join(dois, "\n")) == dois
  {
    if dois == [] {
      TrimTrimmed([]);
      assert Lines([]) == [[]];
    } else {
      LinesOfJoin(dois);
      FilterAll(dois, (d: string) => |d| > 0);
    }
  }

  /** One DOI and what `fetchPublicationData` gave for it. */
  datatype Outcome = Outcome(doi: string, fetched: Result<Cached>)

  /** The loop's state: `publications`, `citationHistory`, the `years` set in
      insertion order, and the DOIs reported with "Error loading DOI". */
  datatype LoadState = LoadState(publications: seq<Publication>, history: History, years: seq<Year>, errors: seq<string>)

  /** `years.add(year)`. */
  function AddYear(years: seq<Year>, y: Year): seq<Year> {
    if y in years then years else years + [y]
  }

  /** One pass of the `try` block: the record construction, then the history
      loop; a throw at either step reports the DOI and changes nothing else. */
  function Step(s: LoadState, o: Outcome): (r: LoadState)
    ensures |r.publications| + |r.errors| == |s.publications| + |s.errors| + 1
  {
    match o.fetched
    case Thrown => s.(errors := s.errors + [o.doi])
    case Ok(c) =>
      match BuildPublication(o.doi, c.crossref, c.openalex)
      case Thrown => s.(errors := s.errors + [o.doi])
      case Ok(p) =>
        LoadState(s.publications + [p], AddHistory(s.history, c.openalex.history), AddYear(s.years, p.year), s.errors)
  }

  /** The state after the loop has handled the given outcomes: every DOI
      either loads or is reported, never both. */
  function Accumulate(outs: seq<Outcome>): (r: LoadState)
    ensures |r.publications| + |r.errors| == |outs|
    decreases |outs|
  {
    if outs == [] then LoadState([], map[], [], [])
    else Step(Accumulate(outs[..|outs| - 1]), outs[|outs| - 1])
  }

  /** The DOIs the loop visits, the outcomes `fetchPublicationData` gives one
      after the other, and the world after the last of them. */
  function Fetched(readings: nat -> int, services: Services, w: World, dois: seq<string>): (r: (seq<Outcome>, World))
    ensures |r.0| == |dois|
    ensures forall i :: 0 <= i < |dois| ==> r.0[i].doi == dois[i]
    ensures w.log <= r.1.log && w.ticks <= r.1.ticks
    decreases |dois|
  {
    if dois == [] then ([], w)
    else
      var (outs, w1) := Fetched(readings, services, w, dois[..|dois| - 1]);
      var (fetched, w2) := Resolve(readings, services, w1, dois[|dois| - 1]);
      (outs + [Outcome(dois[|dois| - 1], fetched)], w2)
  }

  /** Each DOI with what asking both services directly gives for it. */
  function DirectOutcomes(services: Services, dois: seq<string>): (r: seq<Outcome>)
    ensures |r| == |dois|
    ensures forall i :: 0 <= i < |dois| ==> r[i] == Outcome(dois[i], Direct(services, dois[i]))
  {
    seq(|dois|, i requires 0 <= i < |dois| => Outcome(dois[i], Direct(services, dois[i])))
  }

  /** Over a consistent cache, the loop sees what fetching every DOI anew
      would give, and leaves the cache consistent. */
  lemma {:induction false} FetchedDirect(readings: nat -> int, services: Services, w: World, dois: seq<string>)
    requires CacheConsistent(w.store, services)
    ensures Fetched(readings, services, w, dois).0 == DirectOutcomes(services, dois)
    ensures CacheConsistent(Fetched(readings, services, w, dois).1.store, services)
    decreases |dois|
  {
    if dois != [] {
      var init := dois[..|dois| - 1];
      var last := dois[|dois| - 1];
      FetchedDirect(readings, services, w, init);
      var w1 := Fetched(readings, services, w, init).1;
      ResolveConsistent(readings, services, w1, last);
      assert Fetched(readings, services, w, dois).0
          == DirectOutcomes(services, init) + [Outcome(last, Direct(services, last))];
    }
  }

  /** Loading twice gives the same outcomes, and so the same publications,
      history, years and reported DOIs: the second run reads back through
      the cache the first one wrote, or fetches anew, to the same effect. */
  lemma ReloadSameState(readings: nat -> int, services: Services, w: World, dois: seq<string>)
    requires CacheConsistent(w.store, services)
    ensures var first := Fetched(readings, services, w, dois);
      && Fetched(readings, services, first.1, dois).0 == first.0
      && Accumulate(Fetched(readings, services, first.1, dois).0) == Accumulate(first.0)
  {
    FetchedDirect(readings, services, w, dois);
    FetchedDirect(readings, services, Fetched(readings, services, w, dois).1, dois);
  }

  /** The publication built for one outcome, or the throw that reports it. */
  function Built(o: Outcome): (r: Result<Publication>)
    ensures r.Ok? ==> o.fetched.Ok?
  {
    match o.fetched
    case Thrown => Thrown
    case Ok(c) => BuildPublication(o.doi, c.crossref, c.openalex)
  }

  /** The publication one outcome contributes, if it loads. */
  function LoadedBy(o: Outcome): seq<Publication> {
    if Built(o).Ok? then [Built(o).value] else []
  }

  /** The DOI one outcome reports, if it fails. */
  function FailedBy(o: Outcome): seq<string> {
    if Built(o).Thrown? then [o.doi] else []
  }

  /** The `counts_by_year` entries one outcome contributes, if it loads. */
  function HistoryBy(o: Outcome): seq<YearCount> {
    if Built(o).Ok? then o.fetched.value.openalex.history else []
  }

  /** The publications of the outcomes that load, in order. */
  function Loaded(outs: seq<Outcome>): seq<Publication>
    decreases |outs|
  {
    if outs == [] then []
    else LoadedBy(outs[0]) + Loaded(outs[1..])
  }

  /** The DOIs of the outcomes that fail, in order. */
  function Failed(outs: seq<Outcome>): seq<string>
    decreases |outs|
  {
    if outs == [] then []
    else FailedBy(outs[0]) + Failed(outs[1..])
  }

  /** The `counts_by_year` entries of the outcomes that load, in order. */
  function LoadedHistory(outs: seq<Outcome>): seq<YearCount>
    decreases |outs|
  {
    if outs == [] then []
    else HistoryBy(outs[0]) + LoadedHistory(outs[1..])
  }

  lemma {:induction false} LoadedAppend(a: seq<Outcome>, b: seq<Outcome>)
    ensures Loaded(a + b) == Loaded(a) + Loaded(b)
    decreases |a|
  {
    if a == [] {
      assert a + b == b;
    } else {
      assert (a + b)[0] == a[0];
      assert (a + b)[1..] == a[1..] + b;
      LoadedAppend(a[1..], b);
    }
  }

  lemma {:induction false} FailedAppend(a: seq<Outcome>, b: seq<Outcome>)
    ensures Failed(a + b) == Failed(a) + Failed(b)
    decreases |a|
  {
    if a == [] {
      assert a + b == b;
    } else {
      assert (a + b)[0] == a[0];
      assert (a + b)[1..] == a[1..] + b;
      FailedAppend(a[1..], b);
    }
  }

  lemma {:induction false} LoadedHistoryAppend(a: seq<Outcome>, b: seq<Outcome>)
    ensures LoadedHistory(a + b) == LoadedHistory(a) + LoadedHistory(b)
    decreases |a|
  {
    if a == [] {
      assert a + b == b;
    } else {
      assert (a + b)[0] == a[0];
      assert (a + b)[1..] == a[1..] + b;
      LoadedHistoryAppend(a[1..], b);
    }
  }

  /** Every DOI either loads one publication or is reported, never both. */
  lemma {:induction false} LoadedOrFailed(outs: seq<Outcome>)
    ensures |Loaded(outs)| + |Failed(outs)| == |outs|
    decreases |outs|
  {
    if outs != [] {
      LoadedOrFailed(outs[1..]);
    }
  }

  /** A single outcome contributes exactly its own part. */
  lemma SingleOutcome(o: Outcome)
    ensures Loaded([o]) == LoadedBy(o)
    ensures Failed([o]) == FailedBy(o)
    ensures LoadedHistory([o]) == HistoryBy(o)
  {
    assert ([o])[1..] == [];
    assert Loaded([]) == [] && LoadedHistory([]) == [] && Failed([]) == [];
    assert LoadedBy(o) + [] == LoadedBy(o);
    assert FailedBy(o) + [] == FailedBy(o);
    assert HistoryBy(o) + [] == HistoryBy(o);
  }

  /** Partial failure: a DOI that fails is reported and skipped, and the
      publications and the history are those of the other DOIs. */
  lemma FailureSkipped(a: seq<Outcome>, o: Outcome, b: seq<Outcome>)
    requires Built(o).Thrown?
    ensures Loaded(a + [o] + b) == Loaded(a + b)
    ensures LoadedHistory(a + [o] + b) == LoadedHistory(a + b)
    ensures Failed(a + [o] + b) == Failed(a) + [o.doi] + Failed(b)
  {
    SingleOutcome(o);
    assert Loaded([o]) == [] && LoadedHistory([o]) == [] && Failed([o]) == [o.doi];
    LoadedAppend(a, [o]);
    LoadedAppend(a + [o], b);
    LoadedAppend(a, b);
    assert Loaded(a) + [] == Loaded(a);
    FailedAppend(a, [o]);
    FailedAppend(a + [o], b);
    FailedAppend(a, b);
    LoadedHistoryAppend(a, [o]);
    LoadedHistoryAppend(a + [o], b);
    LoadedHistoryAppend(a, b);
    assert LoadedHistory(a) + [] == LoadedHistory(a);
  }

  /** One pass of the loop, in terms of the outcome's own contribution. */
  lemma StepFacts(s: LoadState, o: Outcome)
    ensures Step(s, o).publications == s.publications + Loaded([o])
    ensures Step(s, o).errors == s.errors + Failed([o])
    ensures Step(s, o).history == AddHistory(s.history, LoadedHistory([o]))
    ensures Step(s, o).years == if Built(o).Ok? then AddYear(s.years, Built(o).value.year) else s.years
  {
    SingleOutcome(o);
    if Built(o).Thrown? {
      assert AddHistory(s.history, []) == s.history;
    }
  }

  /** The loop's `publications` are those of the DOIs that load, in list
      order. */
  lemma {:induction false} AccumulateLoaded(outs: seq<Outcome>)
    ensures Accumulate(outs).publications == Loaded(outs)
    decreases |outs|
  {
    if outs != [] {
      var init := outs[..|outs| - 1];
      var o := outs[|outs| - 1];
      AccumulateLoaded(init);
      assert outs == init + [o];
      assert Accumulate(outs) == Step(Accumulate(init), o);
      StepFacts(Accumulate(init), o);
      LoadedAppend(init, [o]);
    }
  }

  /** The loop's reports are the DOIs that fail, in list order. */
  lemma {:induction false} AccumulateFailed(outs: seq<Outcome>)
    ensures Accumulate(outs).errors == Failed(outs)
    decreases |outs|
  {
    if outs != [] {
      var init := outs[..|outs| - 1];
      var o := outs[|outs| - 1];
      AccumulateFailed(init);
      assert outs == init + [o];
      assert Accumulate(outs) == Step(Accumulate(init), o);
      StepFacts(Accumulate(init), o);
      FailedAppend(init, [o]);
    }
  }

  /** The loop's citation history is the sum over the `counts_by_year`
      entries of exactly the DOIs that load. */
  lemma {:induction false} AccumulateHistory(outs: seq<Outcome>)
    ensures Accumulate(outs).history == AddHistory(map[], LoadedHistory(outs))
    decreases |outs|
  {
    if outs != [] {
      var init := outs[..|outs| - 1];
      var o := outs[|outs| - 1];
      AccumulateHistory(init);
      assert outs == init + [o];
      assert Accumulate(outs) == Step(Accumulate(init), o);
      StepFacts(Accumulate(init), o);
      LoadedHistoryAppend(init, [o]);
      AddHistoryAppend(map[], LoadedHistory(init), LoadedHistory([o]));
    }
  }

  /** `ys` holds exactly the years of `pubs`, each once. */
  ghost predicate YearSetOf(ys: seq<Year>, pubs: seq<Publication>) {
    && (forall y :: y in ys <==> exists i :: 0 <= i < |pubs| && pubs[i].year == y)
    && (forall i, j :: 0 <= i < j < |ys| ==> ys[i] != ys[j])
  }

  /** `years.add(p.year)` keeps the set exactly the years of the publications
      so far, each once. */
  lemma AddYearStep(ys: seq<Year>, pubs: seq<Publication>, p: Publication)
    requires YearSetOf(ys, pubs)
    ensures YearSetOf(AddYear(ys, p.year), pubs + [p])
  {
    var after := pubs + [p];
    assert after[|pubs|] == p;
    forall y | exists i :: 0 <= i < |after| && after[i].year == y
      ensures y in AddYear(ys, p.year)
    {
      var i :| 0 <= i < |after| && after[i].year == y;
      if i < |pubs| {
        assert pubs[i] == after[i];
      }
    }
    forall y | y in AddYear(ys, p.year)
      ensures exists i :: 0 <= i < |after| && after[i].year == y
    {
      if y != p.year {
        var i :| 0 <= i < |pubs| && pubs[i].year == y;
        assert after[i] == pubs[i];
      }
    }
  }

  /** The `years` set holds each year of a loaded publication exactly once. */
  lemma {:induction false} AccumulateYears(outs: seq<Outcome>)
    ensures YearSetOf(Accumulate(outs).years, Loaded(outs))
    decreases |outs|
  {
    if outs != [] {
      var init := outs[..|outs| - 1];
      var o := outs[|outs| - 1];
      AccumulateYears(init);
      assert outs == init + [o];
      StepFacts(Accumulate(init), o);
      LoadedAppend(init, [o]);
      assert ([o])[1..] == [];
      if Built(o).Ok? {
        var p := Built(o).value;
        assert Loaded([o]) == [p] + [];
        assert Loaded(outs) == Loaded(init) + [p];
        assert Accumulate(outs).years == AddYear(Accumulate(init).years, p.year);
        AddYearStep(Accumulate(init).years, Loaded(init), p);
      } else {
        assert Loaded([o]) == [] + [];
        assert Loaded(init) + [] == Loaded(init);
        assert Loaded(outs) == Loaded(init);
        assert Accumulate(outs).years == Accumulate(init).years;
      }
    }
  }

  /** The per-year totals of the loaded history. */
  lemma HistoryTotals(outs: seq<Outcome>, y: int)
    ensures CitationsIn(Accumulate(outs).history, y) == YearTotal(LoadedHistory(outs), y)
    ensures y in Accumulate(outs).history <==> y in YearsOf(LoadedHistory(outs))
  {
    AccumulateHistory(outs);
    AddHistoryTotals(map[], LoadedHistory(outs));
  }

  /** `(a, b) => b - a` on years, with a NaN difference counting as 0. */
  function YearOrder(): (Year, Year) -> int {
    (a: Year, b: Year) => Filters.Difference(Filters.NumericYear(b), Filters.NumericYear(a))
  }

  /** `[...years].sort((a, b) => b - a)`: the year selector's options.
      Array sorting never passes `undefined` to the comparator: the
      `undefined` elements go after all the others, and the rest is sorted. */
  function YearOptions(years: seq<Year>): (r: seq<Year>)
    ensures multiset(r) == multiset(years)
  {
    FilterPartition(years, IsDefined, IsUndefined);
    SortBy(Filter(years, IsDefined), YearOrder()) + Filter(years, IsUndefined)
  }

  function IsDefined(y: Year): bool { !y.Undefined? }

  function IsUndefined(y: Year): bool { y.Undefined? }

  /** Every year is a number or null, and they run from the latest down. */
  predicate NumbersDescend(r: seq<Year>) {
    forall i, j :: 0 <= i < j < |r| ==>
      && Filters.NumericYear(r[i]).Some? && Filters.NumericYear(r[j]).Some?
      && Filters.NumericYear(r[i]).value >= Filters.NumericYear(r[j]).value
  }

  /** The numbers and null run from the latest down, and an `undefined` year
      comes after all of them. */
  predicate DescendingThenUndefined(r: seq<Year>) {
    forall i, j :: 0 <= i < j < |r| ==>
      || r[j].Undefined?
      || (&& Filters.NumericYear(r[i]).Some? && Filters.NumericYear(r[j]).Some?
          && Filters.NumericYear(r[i]).value >= Filters.NumericYear(r[j]).value)
  }

  /** Years that all have a numeric value are sorted from the latest down. */
  lemma NumericYearsDescend(d: seq<Year>, r: seq<Year>)
    requires forall i :: 0 <= i < |d| ==> Filters.NumericYear(d[i]).Some?
    requires r == SortBy(d, YearOrder())
    ensures NumbersDescend(r)
  {
    var dom := set y | y in d;
    SortBySorted(d, YearOrder(), dom);
    forall i | 0 <= i < |r| ensures Filters.NumericYear(r[i]).Some? {
      assert multiset(r)[r[i]] > 0;
      assert r[i] in d;
    }
    forall i, j | 0 <= i < j < |r|
      ensures Filters.NumericYear(r[i]).value >= Filters.NumericYear(r[j]).value
    {
      assert YearOrder()(r[i], r[j]) <= 0;
    }
  }

  /** When no year is "—", the options run from the latest year down, and an
      `undefined` year comes last. */
  lemma YearOptionsDescending(years: seq<Year>)
    requires forall i :: 0 <= i < |years| ==> !years[i].Dash?
    ensures DescendingThenUndefined(YearOptions(years))
  {
    var defined := Filter(years, IsDefined);
    var undefs := Filter(years, IsUndefined);
    FilterPasses(years, IsDefined);
    FilterPasses(years, IsUndefined);
    forall i | 0 <= i < |defined| ensures Filters.NumericYear(defined[i]).Some? {
      assert defined[i] in defined;
    }
    forall y | y in undefs ensures y.Undefined? {
      assert IsUndefined(y);
    }
    var sorted := SortBy(defined, YearOrder());
    NumericYearsDescend(defined, sorted);
    assert YearOptions(years) == sorted + undefs;
    UndefinedLast(sorted, undefs);
  }

  /** Appending `undefined` years to years sorted from the latest down. */
  lemma UndefinedLast(sorted: seq<Year>, undefs: seq<Year>)
    requires NumbersDescend(sorted)
    requires forall y :: y in undefs ==> y.Undefined?
    ensures DescendingThenUndefined(sorted + undefs)
  {
    var r := sorted + undefs;
    forall i, j | 0 <= i < j < |r|
      ensures || r[j].Undefined?
              || (&& Filters.NumericYear(r[i]).Some? && Filters.NumericYear(r[j]).Some?
                  && Filters.NumericYear(r[i]).value >= Filters.NumericYear(r[j]).value)
    {
      if j < |sorted| {
        assert r[i] == sorted[i] && r[j] == sorted[j];
      } else {
        assert r[j] == undefs[j - |sorted|];
        assert r[j] in undefs;
      }
    }
  }

  /** The years {undefined, 2020, 2021} are offered as 2021, 2020, undefined. */
  lemma YearOptionsUndefinedLast()
    ensures YearOptions([Undefined, Num(2020), Num(2021)]) == [Num(2021), Num(2020), Undefined]
  {
    var years := [Undefined, Num(2020), Num(2021)];
    assert YearOptions(years) == SortBy(Filter(years, IsDefined), YearOrder()) + Filter(years, IsUndefined);
    ExampleSplit();
    ExampleSorted();
  }

  lemma ExampleSplit()
    ensures Filter([Undefined, Num(2020), Num(2021)], IsDefined) == [Num(2020), Num(2021)]
    ensures Filter([Undefined, Num(2020), Num(2021)], IsUndefined) == [Undefined]
  {
    var years := [Undefined, Num(2020), Num(2021)];
    assert years[1..] == [Num(2020), Num(2021)];
    assert years[1..][1..] == [Num(2021)];
    assert years[1..][1..][1..] == [];
  }

  lemma ExampleSorted()
    ensures SortBy([Num(2020), Num(2021)], YearOrder()) == [Num(2021), Num(2020)]
  {
    var d := [Num(2020), Num(2021)];
    assert d[..1] == [Num(2020)];
    assert ([Num(2020)])[..0] == [];
    assert SortBy([Num(2020)], YearOrder()) == [Num(2020)];
    assert YearOrder()(Num(2020), Num(2021)) == 1;
    assert InsertSorted([], Num(2021), YearOrder()) == [Num(2021)];
    assert InsertSorted([Num(2020)], Num(2021), YearOrder()) == InsertSorted([], Num(2021), YearOrder()) + [Num(2020)];
  }

  /** The `authors.forEach` loop of `buildCoauthorNetwork` for one author
      list. */
  method CountAuthors(nodes: map<string, nat>, authors: seq<string>) returns (r: map<string, nat>)
    ensures r == Tally(nodes, authors)
  {
    r := nodes;
    for k := 0 to |authors|
      invariant r == Tally(nodes, authors[..k])
    {
      var a := authors[k];
      if a !in r {
        r := r[a := 0];
      }
      r := r[a := r[a] + 1];
      assert authors[..k + 1][..k] == authors[..k];
    }
    assert authors[..|authors|] == authors;
  }

  /** The nested `for` loops of `buildCoauthorNetwork` for one author list. */
  method LinkAuthors(edges: seq<Edge>, authors: seq<string>) returns (r: seq<Edge>)
    ensures r == edges + AllPairs(authors)
  {
    r := edges;
    for i := 0 to |authors|
      invariant r == edges + Pairs(authors, i)
    {
      for j := i + 1 to |authors|
        invariant r == edges + Pairs(authors, i) + Row(authors, i)[..j - i - 1]
      {
        r := r + [Edge(authors[i], authors[j])];
        assert Row(authors, i)[..j - i] == Row(authors, i)[..j - i - 1] + [Edge(authors[i], authors[j])];
      }
      assert Row(authors, i)[..|authors| - i - 1] == Row(authors, i);
    }
  }

  /** The `publications.forEach(...)` of `buildCoauthorNetwork`, over the
      publications' author lists. */
  method BuildNetwork(lists: seq<seq<string>>) returns (nodes: map<string, nat>, edges: seq<Edge>)
    ensures nodes == NodeCounts(lists)
    ensures edges == NetworkEdges(lists)
  {
    nodes := map[];
    edges := [];
    for p := 0 to |lists|
      invariant nodes == NodeCounts(lists[..p])
      invariant edges == NetworkEdges(lists[..p])
    {
      assert lists[..p + 1][..p] == lists[..p];
      nodes := CountAuthors(nodes, lists[p]);
      edges := LinkAuthors(edges, lists[p]);
    }
    assert lists[..|lists|] == lists;
  }

  /** The `history.forEach(...)` loop that adds one publication's yearly
      counts into the running citation history. */
  method AddEntries(h: History, entries: seq<YearCount>) returns (r: History)
    ensures r == AddHistory(h, entries)
  {
    r := h;
    for m := 0 to |entries|
      invariant r == AddHistory(h, entries[..m])
    {
      var e := entries[m];
      r := r[e.year := CitationsIn(r, e.year) + e.citedByCount];
      assert entries[..m + 1][..m] == entries[..m];
    }
    assert entries[..|entries|] == entries;
  }

  /** The body of the `try` block for one DOI once its data is fetched:
      build the record, `years.add`, the history loop; a throw reports the
      DOI with "Error loading DOI" and changes nothing else. */
  method Absorb(st: LoadState, doi: string, fetched: Result<Cached>) returns (r: LoadState)
    ensures r == Step(st, Outcome(doi, fetched))
  {
    r := st;
    match fetched
    case Thrown =>
      r := r.(errors := r.errors + [doi]);
    case Ok(c) =>
      match BuildPublication(doi, c.crossref, c.openalex)
      case Thrown =>
        r := r.(errors := r.errors + [doi]);
      case Ok(p) =>
        var years := r.years;
        if p.year !in years {
          years := years + [p.year];
        }
        var history := AddEntries(r.history, c.openalex.history);
        r := LoadState(r.publications + [p], history, years, r.errors);
  }

  /** The `for (const doi of dois)` loop of `loadPublications`: fetch each DOI
      in turn, build its record, add its citations and year, or report it and
      go on with the next. */
  method LoadAll(dois: seq<string>, cache: CacheStore, clock: Clock, net: Network) returns (st: LoadState, ghost outs: seq<Outcome>)
    modifies cache, clock, net
    ensures outs == Fetched(clock.readings, net.services, World(old(cache.items), old(clock.ticks), old(net.log)), dois).0
    ensures World(cache.items, clock.ticks, net.log)
         == Fetched(clock.readings, net.services, World(old(cache.items), old(clock.ticks), old(net.log)), dois).1
    ensures st == Accumulate(outs)
  {
    st := LoadState([], map[], [], []);
    ghost var w0 := World(cache.items, clock.ticks, net.log);
    outs := [];
    for k := 0 to |dois|
      invariant (outs, World(cache.items, clock.ticks, net.log)) == Fetched(clock.readings, net.services, w0, dois[..k])
      invariant st == Accumulate(outs)
    {
      var doi := dois[k];
      var fetched := FetchPublicationData(doi, cache, clock, net);
      assert dois[..k + 1][..k] == dois[..k];
      assert (outs + [Outcome(doi, fetched)])[..|outs|] == outs;
      outs := outs + [Outcome(doi, fetched)];
      st := Absorb(st, doi, fetched);
    }
    assert dois[..|dois|] == dois;
  }

  /** The page state the dashboard script keeps in its globals and writes
      into the page. */
  class Dashboard {
    var publications: seq<Publication>
    var citationHistory: History
    var coauthorEdges: seq<Edge>
    var coauthorNodes: map<string, nat>
    /** The DOIs reported with "Error loading DOI". */
    var errors: seq<string>
    /** The year selector's options after "all". */
    var yearOptions: seq<Year>
    /** The publications `applyFilters` last rendered, in order. */
    var displayed: seq<Publication>
    /** The series `drawCitationChart` last plotted. */
    var chart: ChartSeries

    constructor ()
      ensures publications == [] && citationHistory == map[] && coauthorEdges == [] && coauthorNodes == map[]
      ensures errors == [] && yearOptions == [] && displayed == [] && chart == ChartSeries([], [], [])
    {
      publications := [];
      citationHistory := map[];
      coauthorEdges := [];
      coauthorNodes := map[];
      errors := [];
      yearOptions := [];
      displayed := [];
      chart := ChartSeries([], [], []);
    }

    /** `applyFilters()` for the selector and search values given. */
    method ApplyFilters(choice: Filters.YearChoice, search: string, sortValue: string, collate: (string, string) -> int)
      modifies this
      ensures displayed == Filters.ApplyFilters(publications, choice, search, sortValue, collate)
      ensures publications == old(publications) && citationHistory == old(citationHistory)
      ensures coauthorEdges == old(coauthorEdges) && coauthorNodes == old(coauthorNodes)
      ensures errors == old(errors) && yearOptions == old(yearOptions) && chart == old(chart)
    {
      displayed := Filters.ApplyFilters(publications, choice, search, sortValue, collate);
    }

    /** `drawCitationChart()`, up to handing the series to the chart. */
    method DrawCitationChart()
      modifies this
      ensures chart == Chart(publications, citationHistory)
      ensures publications == old(publications) && citationHistory == old(citationHistory)
      ensures coauthorEdges == old(coauthorEdges) && coauthorNodes == old(coauthorNodes)
      ensures errors == old(errors) && yearOptions == old(yearOptions) && displayed == old(displayed)
    {
      chart := Chart(publications, citationHistory);
    }

    /** `buildCoauthorNetwork()`. */
    method BuildCoauthorNetwork()
      modifies this
      ensures coauthorNodes == NodeCounts(AuthorLists(publications))
      ensures coauthorEdges == NetworkEdges(AuthorLists(publications))
      ensures publications == old(publications) && citationHistory == old(citationHistory)
      ensures errors == old(errors) && yearOptions == old(yearOptions)
      ensures displayed == old(displayed) && chart == old(chart)
    {
      var nodes, edges := BuildNetwork(AuthorLists(publications));
      coauthorNodes := nodes;
      coauthorEdges := edges;
    }

    /** `loadPublications()` on the DOI list `text`, with the selector and
        search values in place when `applyFilters` runs at its end. */
    method LoadPublications(text: string, choice: Filters.YearChoice, search: string, sortValue: string,
                            collate: (string, string) -> int, cache: CacheStore, clock: Clock, net: Network)
      modifies this, cache, clock, net
      ensures var fetched := Fetched(clock.readings, net.services, World(old(cache.items), old(clock.ticks), old(net.log)), LoadDOIs(text));
        && World(cache.items, clock.ticks, net.log) == fetched.1
        && publications == Accumulate(fetched.0).publications
        && citationHistory == Accumulate(fetched.0).history
        && errors == Accumulate(fetched.0).errors
        && yearOptions == old(yearOptions) + YearOptions(Accumulate(fetched.0).years)
      ensures displayed == Filters.ApplyFilters(publications, choice, search, sortValue, collate)
      ensures chart == Chart(publications, citationHistory)
      ensures coauthorNodes == NodeCounts(AuthorLists(publications))
      ensures coauthorEdges == NetworkEdges(AuthorLists(publications))
    {
      var dois := LoadDOIs(text);
      ghost var outs;
      var st;
      st, outs := LoadAll(dois, cache, clock, net);
      Install(st);
      Refresh(choice, search, sortValue, collate);
    }

    /** The globals the loop fills, the network reset before the loop, and
        the options appended to the year selector after it. */
    method Install(st: LoadState)
      modifies this
      ensures publications == st.publications && citationHistory == st.history
      ensures errors == st.errors && yearOptions == old(yearOptions) + YearOptions(st.years)
      ensures coauthorNodes == map[] && coauthorEdges == []
      ensures displayed == old(displayed) && chart == old(chart)
    {
      publications := st.publications;
      citationHistory := st.history;
      coauthorNodes := map[];
      coauthorEdges := [];
      errors := st.errors;
      yearOptions := yearOptions + YearOptions(st.years);
    }

    /** The three redraws at the end of `loadPublications()`: the filtered
        list, the chart and the co-author network. */
    method Refresh(choice: Filters.YearChoice, search: string, sortValue: string, collate: (string, string) -> int)
      modifies this
      ensures displayed == Filters.ApplyFilters(publications, choice, search, sortValue, collate)
      ensures chart == Chart(publications, citationHistory)
      ensures coauthorNodes == NodeCounts(AuthorLists(publications))
      ensures coauthorEdges == NetworkEdges(AuthorLists(publications))
      ensures publications == old(publications) && citationHistory == old(citationHistory)
      ensures errors == old(errors) && yearOptions == old(yearOptions)
    {
      ApplyFilters(choice, search, sortValue, collate);
      DrawCitationChart();
      BuildCoauthorNetwork();
    }
  }
}
