/** `applyFilters` without the page: the year filter, the case-insensitive
    search over title, authors and journal, and the six sort orders. The
    page's three inputs are parameters; `localeCompare` is an injected
    collation `collate`, whose result is read like a comparator's. */
module Filters {
  import opened Wrappers
  import opened Records
  import opened Strings
  import opened Seqs
  import opened Sorting

  /** The year selector's value: "all", or the option written for a year. */
  datatype YearChoice = AllYears | OnlyYear(option: Year)

  /** `pub.year == yearValue` where `yearValue` is the option text `${option}`.
      A number equals the text of the same number and "—" equals "—"; `null`
      and `undefined` equal no text, and a number never equals "—". */
  predicate LooselyEquals(year: Year, option: Year): (r: bool)
    ensures r <==> year == option && (year.Num? || year.Dash?)
  {
    match (year, option)
    case (Num(a), Num(b)) => a == b
    case (Dash, Dash) => true
    case _ => false
  }

  predicate YearMatches(choice: YearChoice, year: Year) {
    choice.AllYears? || LooselyEquals(year, choice.option)
  }

  /** The search condition for an already lower-cased query: the query
      occurs at some position of the lower-cased title, authors or journal. */
  predicate SearchMatches(p: Publication, query: string): (r: bool)
    ensures query == [] ==> r
  {
    || Contains(Lower(p.title), query)
    || Contains(Lower(p.authors), query)
    || Contains(Lower(p.journal), query)
  }

  /** The search condition holds exactly when the query occurs at some
      position of the lower-cased title, authors or journal. */
  lemma SearchMatchesIff(p: Publication, query: string)
    ensures SearchMatches(p, query) <==>
      || (exists i :: OccursAt(Lower(p.title), query, i))
      || (exists i :: OccursAt(Lower(p.authors), query, i))
      || (exists i :: OccursAt(Lower(p.journal), query, i))
  {
    ContainsIff(Lower(p.title), query);
    ContainsIff(Lower(p.authors), query);
    ContainsIff(Lower(p.journal), query);
  }

  /** The search condition as written, over a title and a journal that may
      be `undefined` (`None`): calling `toLowerCase` on `undefined` throws,
      and `||` stops at the first field that matches. On defined fields it is
      the search condition. */
  function SearchAsWritten(title: Option<string>, authors: string, journal: Option<string>, query: string): (r: Result<bool>)
    ensures r.Thrown? <==>
      title.None? || (journal.None? && !Contains(Lower(title.value), query) && !Contains(Lower(authors), query))
    ensures forall p: Publication :: title == Some(p.title) && authors == p.authors && journal == Some(p.journal) ==>
      r == Ok(SearchMatches(p, query))
  {
    if title.None? then Thrown
    else if Contains(Lower(title.value), query) then Ok(true)
    else if Contains(Lower(authors), query) then Ok(true)
    else if journal.None? then Thrown
    else Ok(Contains(Lower(journal.value), query))
  }

  /** A CrossRef record with an empty `container-title` array leaves the
      journal `undefined`, and then any query that neither the title nor the
      authors contain makes the search throw. */
  lemma EmptyContainerTitleBreaksSearch()
    ensures FirstAsWritten(Some([]), "Unknown journal") == None
    ensures SearchAsWritten(Some("Graphs"), "Ada Lovelace", FirstAsWritten(Some([]), "Unknown journal"), "zeta") == Thrown
  {
    assert Lower("Graphs") == "graphs";
    assert Lower("Ada Lovelace") == "ada lovelace";
    AbsentFirstChar("graphs", "zeta");
    AbsentFirstChar("ada lovelace", "zeta");
  }

  /** The filter predicate of `applyFilters`, for the search input `search`. */
  function Selector(choice: YearChoice, search: string): Publication -> bool {
    (p: Publication) => YearMatches(choice, p.year) && SearchMatches(p, Lower(search))
  }

  /** `publications.filter(...)`. */
  function FilterPublications(pubs: seq<Publication>, choice: YearChoice, search: string): seq<Publication> {
    Filter(pubs, Selector(choice, search))
  }

  /** The numeric value of a year in a subtraction: `null` counts as 0, and
      "—" and `undefined` are NaN. */
  function NumericYear(y: Year): Option<int> {
    match y
    case Num(n) => Some(n)
    case Null => Some(0)
    case Dash => None
    case Undefined => None
  }

  /** `a - b` as SortCompare reads it: a NaN difference counts as +0. */
  function Difference(a: Option<int>, b: Option<int>): int {
    if a.Some? && b.Some? then a.value - b.value else 0
  }

  /** The comparator of `applyFilters` for the sort selector's value. An
      unknown value makes it return `undefined`, which SortCompare reads as +0. */
  function Comparator(sortValue: string, collate: (string, string) -> int): (r: (Publication, Publication) -> int)
  {
    if sortValue == "year-desc" then (a: Publication, b: Publication) => Difference(NumericYear(b.year), NumericYear(a.year))
    else if sortValue == "year-asc" then (a: Publication, b: Publication) => Difference(NumericYear(a.year), NumericYear(b.year))
    else if sortValue == "citations-desc" then (a: Publication, b: Publication) => b.citations - a.citations
    else if sortValue == "citations-asc" then (a: Publication, b: Publication) => a.citations - b.citations
    else if sortValue == "title-asc" then (a: Publication, b: Publication) => collate(a.title, b.title)
    else if sortValue == "title-desc" then (a: Publication, b: Publication) => collate(b.title, a.title)
    else (a: Publication, b: Publication) => 0
  }

  /** Every comparator but the two title ones is antisymmetric, and an
      unknown sort value calls every pair equal. */
  lemma ComparatorSigns(sortValue: string, collate: (string, string) -> int, a: Publication, b: Publication)
    ensures var cmp := Comparator(sortValue, collate);
      && (sortValue != "title-asc" && sortValue != "title-desc" ==> cmp(a, b) == -cmp(b, a))
      && (sortValue !in {"year-desc", "year-asc", "citations-desc", "citations-asc", "title-asc", "title-desc"} ==> cmp(a, b) == 0)
  {
  }

  /** The sequence `applyFilters` renders. */
  function ApplyFilters(pubs: seq<Publication>, choice: YearChoice, search: string, sortValue: string,
                        collate: (string, string) -> int): (r: seq<Publication>)
    ensures |r| == |FilterPublications(pubs, choice, search)| <= |pubs|
    ensures forall x :: x in r ==> x in pubs && Selector(choice, search)(x)
  {
    var f := FilterPublications(pubs, choice, search);
    SortByMembers(f, Comparator(sortValue, collate));
    FilterPasses(pubs, Selector(choice, search));
    SortBy(FilterPublications(pubs, choice, search), Comparator(sortValue, collate))
  }

  /** Filtering keeps exactly the publications that meet both conditions:
      a publication is shown iff it is loaded and passes, every occurrence of a
      passing one is shown and none of a failing one, in the loaded order
      before sorting, and sorting only permutes them. */
  lemma ApplyFiltersSelects(pubs: seq<Publication>, choice: YearChoice, search: string, sortValue: string,
                            collate: (string, string) -> int, x: Publication)
    ensures var shown := ApplyFilters(pubs, choice, search, sortValue, collate);
      && (x in shown <==> x in pubs && YearMatches(choice, x.year) && SearchMatches(x, Lower(search)))
      && multiset(shown)[x] == (if YearMatches(choice, x.year) && SearchMatches(x, Lower(search)) then multiset(pubs)[x] else 0)
      && multiset(shown) == multiset(FilterPublications(pubs, choice, search))
    ensures IsSubsequence(FilterPublications(pubs, choice, search), pubs)
  {
    var f := FilterPublications(pubs, choice, search);
    FilterMembers(pubs, Selector(choice, search), x);
    FilterCounts(pubs, Selector(choice, search), x);
    FilterIsSubsequence(pubs, Selector(choice, search));
    var shown := ApplyFilters(pubs, choice, search, sortValue, collate);
    assert multiset(shown) == multiset(f);
    assert x in shown <==> multiset(shown)[x] > 0;
    assert x in f <==> multiset(f)[x] > 0;
  }

  /** An empty query matches every field, so with "all" years nothing is
      filtered out. */
  lemma EmptyQueryShowsAll(pubs: seq<Publication>)
    ensures FilterPublications(pubs, AllYears, "") == pubs
  {
    forall i | 0 <= i < |pubs| ensures Selector(AllYears, "")(pubs[i]) {
      EmptyContained(Lower(pubs[i].title));
    }
    FilterAll(pubs, Selector(AllYears, ""));
  }

  /** An unknown sort value keeps the filtered order. */
  lemma UnknownSortKeepsOrder(pubs: seq<Publication>, choice: YearChoice, search: string, sortValue: string,
                              collate: (string, string) -> int)
    requires sortValue !in {"year-desc", "year-asc", "citations-desc", "citations-asc", "title-asc", "title-desc"}
    ensures ApplyFilters(pubs, choice, search, sortValue, collate) == FilterPublications(pubs, choice, search)
  {
    SortByKeepsSorted(FilterPublications(pubs, choice, search), Comparator(sortValue, collate));
  }

  /** The set of elements of a sequence. */
  function Elements(s: seq<Publication>): set<Publication> {
    set x | x in s
  }

  /** Under "citations-desc" the citation counts do not increase. */
  lemma CitationsDescOrdered(pubs: seq<Publication>, choice: YearChoice, search: string, collate: (string, string) -> int)
    ensures var shown := ApplyFilters(pubs, choice, search, "citations-desc", collate);
      forall i, j :: 0 <= i < j < |shown| ==> shown[i].citations >= shown[j].citations
  {
    var f := FilterPublications(pubs, choice, search);
    SortBySorted(f, Comparator("citations-desc", collate), Elements(f));
  }

  /** Under "citations-asc" the citation counts do not decrease. */
  lemma CitationsAscOrdered(pubs: seq<Publication>, choice: YearChoice, search: string, collate: (string, string) -> int)
    ensures var shown := ApplyFilters(pubs, choice, search, "citations-asc", collate);
      forall i, j :: 0 <= i < j < |shown| ==> shown[i].citations <= shown[j].citations
  {
    var f := FilterPublications(pubs, choice, search);
    SortBySorted(f, Comparator("citations-asc", collate), Elements(f));
  }

  /** No year is "—" or `undefined`, so every year has a numeric value. */
  predicate NumericYears(pubs: seq<Publication>) {
    forall i :: 0 <= i < |pubs| ==> NumericYear(pubs[i].year).Some?
  }

  lemma FilterKeepsNumericYears(pubs: seq<Publication>, choice: YearChoice, search: string)
    requires NumericYears(pubs)
    ensures forall x :: x in FilterPublications(pubs, choice, search) ==> NumericYear(x.year).Some?
  {
    forall x | x in FilterPublications(pubs, choice, search) ensures NumericYear(x.year).Some? {
      FilterMembers(pubs, Selector(choice, search), x);
    }
  }

  /** Under "year-asc" the years do not decrease, provided every year is a
      number or `null`. */
  lemma YearAscOrdered(pubs: seq<Publication>, choice: YearChoice, search: string, collate: (string, string) -> int)
    requires NumericYears(pubs)
    ensures var shown := ApplyFilters(pubs, choice, search, "year-asc", collate);
      forall i, j :: 0 <= i < j < |shown| ==>
        NumericYear(shown[i].year).Some? && NumericYear(shown[j].year).Some? &&
        NumericYear(shown[i].year).value <= NumericYear(shown[j].year).value
  {
    var f := FilterPublications(pubs, choice, search);
    FilterKeepsNumericYears(pubs, choice, search);
    var shown := ApplyFilters(pubs, choice, search, "year-asc", collate);
    SortBySorted(f, Comparator("year-asc", collate), Elements(f));
    forall i | 0 <= i < |shown| ensures NumericYear(shown[i].year).Some? {
      assert multiset(shown)[shown[i]] > 0;
      assert shown[i] in f;
    }
  }

  /** Under "year-desc" the years do not increase, provided every year is a
      number or `null`. */
  lemma YearDescOrdered(pubs: seq<Publication>, choice: YearChoice, search: string, collate: (string, string) -> int)
    requires NumericYears(pubs)
    ensures var shown := ApplyFilters(pubs, choice, search, "year-desc", collate);
      forall i, j :: 0 <= i < j < |shown| ==>
        NumericYear(shown[i].year).Some? && NumericYear(shown[j].year).Some? &&
        NumericYear(shown[i].year).value >= NumericYear(shown[j].year).value
  {
    var f := FilterPublications(pubs, choice, search);
    FilterKeepsNumericYears(pubs, choice, search);
    var shown := ApplyFilters(pubs, choice, search, "year-desc", collate);
    SortBySorted(f, Comparator("year-desc", collate), Elements(f));
    forall i | 0 <= i < |shown| ensures NumericYear(shown[i].year).Some? {
      assert multiset(shown)[shown[i]] > 0;
      assert shown[i] in f;
    }
  }

  /** The collation is a total preorder on the given titles. */
  ghost predicate CollationConsistent(titles: set<string>, collate: (string, string) -> int) {
    && (forall a, b :: a in titles && b in titles ==> collate(a, b) <= 0 || collate(b, a) <= 0)
    && (forall a, b, c :: a in titles && b in titles && c in titles && collate(a, b) <= 0 && collate(b, c) <= 0 ==> collate(a, c) <= 0)
  }

  /** Both title comparators are consistent on publications whose titles
      the collation orders consistently. */
  lemma TitleComparatorConsistent(dom: set<Publication>, titles: set<string>, sortValue: string,
                                  collate: (string, string) -> int)
    requires sortValue == "title-asc" || sortValue == "title-desc"
    requires forall x :: x in dom ==> x.title in titles
    requires CollationConsistent(titles, collate)
    ensures ConsistentOn(dom, Comparator(sortValue, collate))
  {
    var cmp := Comparator(sortValue, collate);
    forall a, b | a in dom && b in dom ensures cmp(a, b) <= 0 || cmp(b, a) <= 0 {
      assert a.title in titles && b.title in titles;
    }
    forall a, b, c | a in dom && b in dom && c in dom && cmp(a, b) <= 0 && cmp(b, c) <= 0
      ensures cmp(a, c) <= 0
    {
      assert a.title in titles && b.title in titles && c.title in titles;
    }
  }

  /** The titles of the filtered publications are titles of loaded ones. */
  lemma FilteredTitles(pubs: seq<Publication>, choice: YearChoice, search: string)
    ensures forall x :: x in Elements(FilterPublications(pubs, choice, search)) ==> x.title in (set y | y in pubs :: y.title)
  {
    FilterPasses(pubs, Selector(choice, search));
  }

  /** Under "title-asc" the titles are in collation order, provided the
      collation is consistent on them. */
  lemma TitleAscOrdered(pubs: seq<Publication>, choice: YearChoice, search: string, collate: (string, string) -> int)
    requires CollationConsistent(set x | x in pubs :: x.title, collate)
    ensures var shown := ApplyFilters(pubs, choice, search, "title-asc", collate);
      forall i, j :: 0 <= i < j < |shown| ==> collate(shown[i].title, shown[j].title) <= 0
  {
    var f := FilterPublications(pubs, choice, search);
    FilteredTitles(pubs, choice, search);
    var cmp := Comparator("title-asc", collate);
    TitleComparatorConsistent(Elements(f), set x | x in pubs :: x.title, "title-asc", collate);
    SortBySorted(f, cmp, Elements(f));
    var shown := SortBy(f, cmp);
    forall i, j | 0 <= i < j < |shown| ensures collate(shown[i].title, shown[j].title) <= 0 {
      assert cmp(shown[i], shown[j]) <= 0;
    }
  }

  /** Under "title-desc" the titles are in reverse collation order, provided
      the collation is consistent on them. */
  lemma TitleDescOrdered(pubs: seq<Publication>, choice: YearChoice, search: string, collate: (string, string) -> int)
    requires CollationConsistent(set x | x in pubs :: x.title, collate)
    ensures var shown := ApplyFilters(pubs, choice, search, "title-desc", collate);
      forall i, j :: 0 <= i < j < |shown| ==> collate(shown[j].title, shown[i].title) <= 0
  {
    var f := FilterPublications(pubs, choice, search);
    FilteredTitles(pubs, choice, search);
    var cmp := Comparator("title-desc", collate);
    TitleComparatorConsistent(Elements(f), set x | x in pubs :: x.title, "title-desc", collate);
    SortBySorted(f, cmp, Elements(f));
    var shown := SortBy(f, cmp);
    forall i, j | 0 <= i < j < |shown| ensures collate(shown[j].title, shown[i].title) <= 0 {
      assert cmp(shown[i], shown[j]) <= 0;
    }
  }

  /** The publications with `c` citations, in order. */
  function WithCitations(s: seq<Publication>, c: int): seq<Publication> {
    Filter(s, (p: Publication) => p.citations == c)
  }

  /** Stability under "citations-desc": publications with the same number of
      citations are shown in the order in which they were loaded. */
  lemma CitationTiesKeepOrder(pubs: seq<Publication>, choice: YearChoice, search: string,
                              collate: (string, string) -> int, c: int)
    ensures WithCitations(ApplyFilters(pubs, choice, search, "citations-desc", collate), c)
         == WithCitations(FilterPublications(pubs, choice, search), c)
  {
    var f := FilterPublications(pubs, choice, search);
    var cmp := Comparator("citations-desc", collate);
    var x := Publication("", "", "", Null, "", "", "", c, "");
    var dom := Elements(f) + {x};
    assert ConsistentOn(dom, cmp);
    assert forall z :: Ties(cmp, x)(z) == (z.citations == c);
    SortByStable(f, cmp, dom, x);
    FilterSame(SortBy(f, cmp), Ties(cmp, x), (p: Publication) => p.citations == c);
    FilterSame(f, Ties(cmp, x), (p: Publication) => p.citations == c);
  }
}
