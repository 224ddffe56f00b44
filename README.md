# Publications dashboard — a verified model

The dashboard script `assets/js/publications.js` does the following:

- It reads a list of DOIs.
- It resolves each DOI through a 24-hour cache kept in the browser's key-value store. On a miss it asks CrossRef for the work record and OpenAlex for the citation counts, and writes both to the cache.
- It builds one publication record per DOI, filling a default for every missing field. It sums the yearly citation counts into a single history and collects the years it has seen.
- It then keeps the page in step with that state:
  - the years shown in the year selector;
  - the filtered and sorted publication list (`applyFilters`);
  - the series of the citation timeline (`drawCitationChart`);
  - the co-author network (`buildCoauthorNetwork`).

The model has these parts:

- **Functional side** (functions and lemmas):
  - the cache reads and writes as functions on a map store;
  - `fetchPublicationData` as a function of the store, the clock readings and the services' answers;
  - `loadDOIs`;
  - the record construction;
  - the per-DOI loop as a left fold over the DOIs' outcomes;
  - the filter and the six comparators over an insertion sort, proved stable;
  - the history summation and the chart series;
  - the co-author node counts and edges.
- **Imperative side** (methods and classes):
  - the cache as a class `CacheStore` whose methods update its map;
  - the clock and the network as classes whose state is the number of readings taken and the requests sent;
  - each loop of the script as a method with loop invariants, proved against the functional side;
  - the page's globals as the class `Loader.Dashboard`, with methods `LoadPublications`, `ApplyFilters`, `DrawCitationChart` and `BuildCoauthorNetwork`.

Modules, one file each, in dependency order:

- `Wrappers`
- `Strings`: trim, split, join, lower-case, includes.
- `Seqs`: filter.
- `Sorting`: an insertion sort that takes a comparator, with its order and stability.
- `Records`: the CrossRef and OpenAlex shapes, and the publication record.
- `Environment`: the clock and the network.
- `Cache`
- `Aggregator`: `fetchPublicationData`.
- `Filters`: `applyFilters`.
- `Citations`: the history and the chart.
- `Coauthors`
- `Loader`: `loadDOIs`, the loop, and `Dashboard`.

Design choices that follow the code:

- **Years.** A year is `Num(n)`, `Null` (a `null` date part), `Dash` (the "—" placeholder used when `issued` is missing) or `Undefined` (an empty first date part).
  - An empty `date-parts` array makes the record construction throw, so the DOI is reported as an error.
  - For subtraction in the comparators, `null` counts as 0, while "—" and `undefined` count as NaN.
  - ECMAScript's SortCompare reads a NaN or `undefined` comparator result as +0. So an unknown sort key yields the filtered order unchanged.
- **Matching years and search.** The year filter is JavaScript loose equality between the year and the option text `${y}`. The search is a substring test ("includes") on the lower-cased title, authors and journal.
- **Cache expiry.** An entry expires when `now - timestamp > 86_400_000` ms. For the integer millisecond times `Date.now()` returns, this is the same as `ageHours > 24`.
- **Clock readings.** The clock is read only when the stored text parses, and once more when an entry is saved. The model counts these readings.
- **Cache writes.** A failing fetch writes nothing to the cache. An expired entry is still removed.
- **Co-author nodes.** A node's count is the number of times the name occurs in the author lists. So a name listed twice in one publication counts twice.
- **Co-author edges.** Every pair of positions i < j gives an edge. So a name listed twice gets an edge to itself. The counting and the edges are not deduplicated.
- **Counts and self-pairs.** A node's count is of occurrences, not of publications, and self-pairs are kept (`Coauthors.RepeatedNameCountsTwice`, `Coauthors.AllPairsMembers`).

## Model

| member | source | states |
|---|---|---|
| Cache.CacheKey | assets/js/publications.js:11-13 | the key is the fixed prefix `pubcache_` followed by the DOI, and nothing else |
| Cache.Lookup | assets/js/publications.js:15-33 | a hit happens only after the stored text parses, and a hit leaves the store as it is |
| Cache.AfterLookup | assets/js/publications.js:15-33 | a read removes at most the DOI's own key and changes no value |
| Cache.Saved | assets/js/publications.js:35-45 | a save adds the DOI's key, stamped with the time given, and keeps every other key's value |
| Cache.CacheKeyInjective | assets/js/publications.js:11-13 | different DOIs never share a cache key |
| Cache.SaveThenLookup | assets/js/publications.js:15-45 | an entry read back within 24 hours of being saved is exactly what was saved, and reading it does not change the store |
| Cache.LookupExpired | assets/js/publications.js:22-27 | a parsed entry older than `CACHE_DURATION_HOURS` reads as absent, and exactly that key is removed while every other key keeps its value |
| Cache.LookupUnparsable | assets/js/publications.js:17-32 | a missing key or a text that does not parse reads as absent, leaves the store as it is and does not read the clock |
| Cache.SaveKeepsOthers | assets/js/publications.js:35-45 | saving one DOI's entry changes neither what another DOI reads nor whether reading it reads the clock |
| Cache.CacheStore.Load | assets/js/publications.js:15-33 | `loadFromCache`: returns the lookup value, removes an expired entry and nothing else, and reads the clock once exactly when the stored text parses |
| Cache.CacheStore.Save | assets/js/publications.js:35-45 | `saveToCache`: overwrites the DOI's entry with both answers stamped with one fresh clock reading |
| Environment.Clock.Now | assets/js/publications.js:22 | `Date.now()` returns the next reading and advances the clock by one reading |
| Environment.Network.FetchCrossRef | assets/js/publications.js:62-67 | sends one CrossRef request and returns the work record, or throws when the service fails |
| Environment.Network.FetchOpenAlex | assets/js/publications.js:69-78 | sends one OpenAlex request and returns the normalised metrics, or throws |
| Records.Normalize | assets/js/publications.js:74-77 | a missing `cited_by_count` becomes 0 and a missing `counts_by_year` becomes the empty list, and present values are kept |
| Records.PersonNames | assets/js/publications.js:340 | one `given family` name per CrossRef author, in order |
| Records.AuthorsDisplay | assets/js/publications.js:339-341 | the names joined by ", ", or "Unknown authors" when there is no author list |
| Records.FirstOr | assets/js/publications.js:343-346 | the first element of the array, or the default when the array is missing or empty (the evidently intended title and journal) |
| Records.FirstAsWritten | assets/js/publications.js:343-346 | as written: the result is undefined exactly for an empty array, and otherwise agrees with `FirstOr` |
| Records.YearOf | assets/js/publications.js:347-349 | "—" without `issued`; a throw exactly when `date-parts` is empty; `undefined` when the first date part is empty; otherwise that part's first number, or `null` |
| Records.BuildPublication | assets/js/publications.js:339-366 | the record throws exactly for an empty `date-parts`; otherwise the title and journal are the first array element or "Untitled"/"Unknown journal", the volume, issue and pages are the source value or "", the authors and year are as `AuthorsDisplay` and `YearOf` give them, with the OpenAlex citation count and the DOI |
| Aggregator.Resolve | assets/js/publications.js:83-93 | the request log only grows, by at most two requests and only for this DOI; the clock advances by at most two readings; no request is sent exactly on a cache hit |
| Aggregator.ResolveHit | assets/js/publications.js:84-85 | a cache hit returns the cached data, sends no request and leaves the store as it was |
| Aggregator.ResolveMissFetched | assets/js/publications.js:87-92 | on a miss it asks CrossRef and then OpenAlex, returns both answers and caches them stamped with the next clock reading |
| Aggregator.ResolveFailureWritesNothing | assets/js/publications.js:87-90 | a throwing fetch writes nothing to the store beyond the eviction of an expired entry, and a CrossRef failure sends no OpenAlex request |
| Aggregator.ResolveKeepsOthers | assets/js/publications.js:83-93 | resolving one DOI leaves what every other DOI reads unchanged |
| Aggregator.ResolveCacheTransparent | assets/js/publications.js:83-93 | a fresh entry holding the services' answers gives the same result as fetching anew |
| Aggregator.Direct | assets/js/publications.js:87-92 | asking both services throws exactly when either answer is missing |
| Aggregator.ResolveConsistent | assets/js/publications.js:83-93 | over a cache whose entries hold the services' answers, a hit and a miss both return what asking the services directly returns, and the cache keeps that property |
| Aggregator.FetchPublicationData | assets/js/publications.js:83-93 | the method's result, store, clock and request log are exactly those of the `Resolve` specification |
| Loader.LoadDOIs | assets/js/publications.js:50-57 | no more DOIs than lines, and none of them empty |
| Loader.LoadDOIsMembers | assets/js/publications.js:53-56 | a string is a DOI iff it is the non-empty trim of some line; every DOI is trimmed and holds no newline |
| Loader.LinesOfJoin | assets/js/publications.js:53-55 | trimmed, single-line DOIs written one per line are split and trimmed back into the same list |
| Loader.LoadDOIsJoin | assets/js/publications.js:53-56 | round trip: non-empty, trimmed, single-line DOIs written one per line are read back in order |
| Loader.Fetched | assets/js/publications.js:335-337 | one outcome per DOI in list order, and the request log and the clock only grow |
| Loader.DirectOutcomes | assets/js/publications.js:335-337 | one outcome per DOI, each what asking both services directly gives |
| Loader.FetchedDirect | assets/js/publications.js:335-337 | over a consistent cache the loop's outcomes are those of fetching every DOI anew, and the cache stays consistent |
| Loader.ReloadSameState | assets/js/publications.js:324-377 | from a consistent cache (an empty one, by `Aggregator.EmptyCacheConsistent`), a second load from the world the first one left gives the same outcomes, and so the same publications, history, years and reported DOIs |
| Loader.Step | assets/js/publications.js:336-376 | one pass adds exactly one entry to the publications or to the reported DOIs |
| Loader.Accumulate | assets/js/publications.js:335-377 | after the loop every DOI has loaded a publication or been reported |
| Loader.Built | assets/js/publications.js:337-353 | a publication is built only from fetched data |
| Loader.LoadedAppend | assets/js/publications.js:335-366 | the loaded publications of two runs of outcomes are those of each, in order |
| Loader.FailedAppend | assets/js/publications.js:374-376 | the reported DOIs of two runs of outcomes are those of each, in order |
| Loader.LoadedHistoryAppend | assets/js/publications.js:368-372 | the history entries of two runs of outcomes are those of each, in order |
| Loader.LoadedOrFailed | assets/js/publications.js:335-377 | every DOI either loads one publication or is reported, never both |
| Loader.SingleOutcome | assets/js/publications.js:336-376 | one DOI's outcome contributes exactly its own publication, report and history entries |
| Loader.FailureSkipped | assets/js/publications.js:336-376 | a failing DOI is reported and skipped: the publications and history are those of the other DOIs |
| Loader.StepFacts | assets/js/publications.js:336-376 | one pass of the loop adds exactly the outcome's publication, report, history entries and year |
| Loader.AccumulateLoaded | assets/js/publications.js:335-366 | the loop's publications are those of the DOIs that load, in DOI order |
| Loader.AccumulateFailed | assets/js/publications.js:374-376 | the loop reports exactly the DOIs that fail, in DOI order |
| Loader.AccumulateHistory | assets/js/publications.js:368-372 | the loop's citation history is the summation over exactly the loaded DOIs' entries |
| Loader.AddYearStep | assets/js/publications.js:354 | `years.add` keeps the list exactly the years of the publications so far, each once |
| Loader.AccumulateYears | assets/js/publications.js:333-354 | the years set holds exactly the years of the loaded publications, each once |
| Loader.HistoryTotals | assets/js/publications.js:368-372 | each year's total is the sum of its entries over the loaded DOIs (summed, not overwritten), and the years present are those mentioned |
| Loader.YearOptions | assets/js/publications.js:380 | the options are a permutation of the years seen: the defined years sorted by `b - a`, then the `undefined` years, which ECMAScript's sort places last without calling the comparator |
| Loader.NumericYearsDescend | assets/js/publications.js:380 | years that are all numbers or null are sorted from the latest down |
| Loader.YearOptionsDescending | assets/js/publications.js:380 | when no year is "—", the numbers and null run from the latest year down, and an `undefined` year comes after all of them |
| Loader.UndefinedLast | assets/js/publications.js:380 | appending the `undefined` years to the descending numeric years keeps every `undefined` behind every number |
| Loader.YearOptionsUndefinedLast | assets/js/publications.js:380 | the years {undefined, 2020, 2021} are offered as 2021, 2020, undefined |
| Loader.CountAuthors | assets/js/publications.js:171-176 | the node loop for one author list computes the tally specification |
| Loader.LinkAuthors | assets/js/publications.js:178-185 | the nested `for` loops append exactly the i < j pairs of one author list |
| Loader.BuildNetwork | assets/js/publications.js:168-186 | the `forEach` over publications computes the node counts and the edges of all author lists |
| Loader.AddEntries | assets/js/publications.js:368-372 | the history loop computes the summation specification |
| Loader.Absorb | assets/js/publications.js:337-376 | the `try` block for one DOI computes one step of the loop specification |
| Loader.LoadAll | assets/js/publications.js:335-377 | the DOI loop leaves the cache, clock and network as the sequence of `fetchPublicationData` calls does, and computes the fold of the outcomes |
| Loader.Dashboard.constructor | assets/js/publications.js:98-101 | the globals start empty |
| Loader.Dashboard.ApplyFilters | assets/js/publications.js:292-319 | the rendered list is the filtered and sorted publications, and nothing else changes |
| Loader.Dashboard.DrawCitationChart | assets/js/publications.js:106-114 | the plotted series are those derived from the publications and the history, and nothing else changes |
| Loader.Dashboard.BuildCoauthorNetwork | assets/js/publications.js:164-187 | the nodes and edges are those of the publications' author lists, and nothing else changes |
| Loader.Dashboard.Install | assets/js/publications.js:329-381 | the globals hold the loop state's publications, history and reported DOIs; the co-author nodes and edges are reset to empty; the sorted options of its years are appended to the selector's existing options; the list and chart are untouched |
| Loader.Dashboard.Refresh | assets/js/publications.js:384-388 | the list, the chart and the network are derived from the current publications and history, which stay as they are |
| Loader.Dashboard.LoadPublications | assets/js/publications.js:324-389 | the state after a load is the fold of the fetched outcomes; the sorted year options are appended to those already in the selector; the list, chart and network are derived from the new state |
| Citations.AddHistory | assets/js/publications.js:368-372 | adding entries keeps every year already present and makes every mentioned year present |
| Citations.AddHistoryTotals | assets/js/publications.js:368-372 | adding entries adds each year's total to its previous value, and the years present are the old ones and those mentioned |
| Citations.YearTotalAppend | assets/js/publications.js:368-372 | totals over a concatenation add up |
| Citations.AddHistoryAppend | assets/js/publications.js:368-372 | adding entries in two batches is adding them all at once |
| Citations.MinExists | assets/js/publications.js:109 | a non-empty finite set of years has a least element |
| Citations.MinOf | assets/js/publications.js:109 | the least year of a non-empty set |
| Citations.SortedKeys | assets/js/publications.js:109 | the history's years in strictly ascending order, each once, and no other |
| Citations.Chart | assets/js/publications.js:109-114 | the years ascend strictly and are exactly the history's; each citation value is that year's total; each publication count is the number of publications whose year loosely equals it |
| Coauthors.AuthorNames | assets/js/publications.js:169 | every author string gives at least one name |
| Coauthors.AuthorNamesClean | assets/js/publications.js:169 | every name is trimmed and free of commas |
| Coauthors.SplitJoinedNames | assets/js/publications.js:169 | names joined by ", " split at the commas into the names, each later one behind a space |
| Coauthors.TrimSpacedNames | assets/js/publications.js:169 | trimming removes exactly that space again |
| Coauthors.AuthorNamesJoin | assets/js/publications.js:169 | round trip with the loader's authors string: trimmed, comma-free names joined by ", " split back into the same names |
| Coauthors.Tally | assets/js/publications.js:171-176 | tallying keeps every node, and every node keeps a count of at least 1 |
| Coauthors.TallyCounts | assets/js/publications.js:171-176 | tallying one list adds each name's number of occurrences, and the nodes are the old ones and the listed names |
| Coauthors.AuthorLists | assets/js/publications.js:168-169 | one author list per publication, in order, each the split and trimmed `authors` string of that publication |
| Coauthors.NodeCounts | assets/js/publications.js:168-176 | every node has a count of at least 1 |
| Coauthors.OccurrencesAppend | assets/js/publications.js:168-176 | the occurrences of a name in one more list add that list's count |
| Coauthors.NodeCountsOccurrences | assets/js/publications.js:168-176 | a node's count is the number of occurrences of its name over all author lists, and there is a node exactly for the names that occur |
| Coauthors.RepeatedNameCountsTwice | assets/js/publications.js:171-176 | a name listed twice in one publication has count 2, not the number of publications |
| Coauthors.Row | assets/js/publications.js:179-184 | the inner loop's edges for position i go to every later position, in order |
| Coauthors.PairsCount | assets/js/publications.js:178-185 | the first i rounds of the outer loop give i(2n-i-1)/2 edges |
| Coauthors.AllPairsCount | assets/js/publications.js:178-185 | an author list of n names gives n(n-1)/2 edges |
| Coauthors.PairsMembers | assets/js/publications.js:178-185 | an edge is among the first i rounds iff it joins positions a < b with a < i |
| Coauthors.AllPairsMembers | assets/js/publications.js:178-185 | an edge comes from a list iff it joins positions a < b; there is no deduplication, and self-pairs from repeated names are kept |
| Coauthors.NetworkEdges | assets/js/publications.js:168-186 | both ends of every edge are names on one publication's author list |
| Coauthors.NetworkEdgesAppend | assets/js/publications.js:168-186 | the edges of several publications are the edges of each, in order |
| Coauthors.NetworkEdgesMembers | assets/js/publications.js:168-186 | an edge of the network comes from some publication's author list, and every such edge is in it |
| Coauthors.ThreeNamesParsed | assets/js/publications.js:169 | the authors string "A, B, C" is the list A, B, C |
| Coauthors.ThreeNamesPairs | assets/js/publications.js:178-185 | the list A, B, C gives the pairs A-B, A-C, B-C in loop order |
| Coauthors.ThreeAuthors | assets/js/publications.js:168-186 | "A, B, C" gives exactly A-B, A-C, B-C and a count of 1 for each name |
| Coauthors.SingleList | assets/js/publications.js:168-186 | for one publication the edges are its list's pairs and each count is the name's occurrences on the list |
| Coauthors.SoleAuthorTwice | assets/js/publications.js:168-186 | two publications by "A" alone give A the count 2 and no edges |
| Filters.LooselyEquals | assets/js/publications.js:298 | a year loosely equals an option exactly when they are the same number or both "—"; `null` and `undefined` equal no option |
| Filters.SearchMatches | assets/js/publications.js:299-302 | an empty query matches every publication |
| Filters.SearchMatchesIff | assets/js/publications.js:299-302 | the search holds exactly when the query occurs at some position of the lower-cased title, authors or journal |
| Filters.ComparatorSigns | assets/js/publications.js:306-315 | the year and citation comparators are antisymmetric, and an unknown sort value calls every pair equal |
| Filters.ApplyFilters | assets/js/publications.js:292-319 | the list shows as many publications as pass the filter, no more than are loaded, and each one shown is loaded and passes |
| Filters.SearchAsWritten | assets/js/publications.js:299-302 | the search throws exactly when the title is undefined, or when the journal is undefined and neither the title nor the authors matched; on defined fields it is the three-field match |
| Filters.EmptyContainerTitleBreaksSearch | assets/js/publications.js:344-346 | an empty `container-title` array gives an undefined journal, and the search then throws for a query the title and authors lack |
| Filters.ApplyFiltersSelects | assets/js/publications.js:297-315 | a publication is shown iff it is loaded and passes the year and search conditions; every occurrence of a passing one is kept; the filter keeps the loaded order; the sort only permutes |
| Filters.EmptyQueryShowsAll | assets/js/publications.js:297-304 | with "all" years and an empty query, every publication is kept, in order |
| Filters.UnknownSortKeepsOrder | assets/js/publications.js:306-315 | a sort value outside the six keys keeps the filtered order |
| Filters.CitationsDescOrdered | assets/js/publications.js:310 | under "citations-desc" the citation counts do not increase |
| Filters.CitationsAscOrdered | assets/js/publications.js:311 | under "citations-asc" the citation counts do not decrease |
| Filters.FilterKeepsNumericYears | assets/js/publications.js:297-304 | filtering keeps only publications from the input, so numeric years stay numeric |
| Filters.YearAscOrdered | assets/js/publications.js:309 | under "year-asc", with every year a number or null, the years do not decrease |
| Filters.YearDescOrdered | assets/js/publications.js:308 | under "year-desc", with every year a number or null, the years do not increase |
| Filters.TitleComparatorConsistent | assets/js/publications.js:312-313 | both title comparators are total preorders on publications whose titles the collation orders consistently |
| Filters.FilteredTitles | assets/js/publications.js:297-304 | the filtered publications' titles are titles of loaded publications |
| Filters.TitleAscOrdered | assets/js/publications.js:312 | under "title-asc", with a consistent collation, the titles are in collation order |
| Filters.TitleDescOrdered | assets/js/publications.js:313 | under "title-desc", with a consistent collation, the titles are in reverse collation order |
| Filters.CitationTiesKeepOrder | assets/js/publications.js:306-315 | under "citations-desc", publications with the same citation count are shown in their loaded order |
| Sorting.InsertSorted | assets/js/publications.js:306-315 | inserting adds exactly the one element |
| Sorting.SortBy | assets/js/publications.js:306-315 | the sorted list is a permutation of the input |
| Sorting.AppendSorted | assets/js/publications.js:306-315 | appending an element that nothing earlier sorts after keeps the order |
| Sorting.InsertSortedSorted | assets/js/publications.js:306-315 | with a consistent comparator, insertion keeps the order |
| Sorting.SortBySorted | assets/js/publications.js:306-315 | with a consistent comparator the result is in comparator order |
| Sorting.SortedInit | assets/js/publications.js:306-315 | a prefix of an ordered list is ordered |
| Sorting.SortByKeepsSorted | assets/js/publications.js:306-315 | an input already in order is left as it is, so a comparator that ties every pair keeps the input order |
| Sorting.SortByMembers | assets/js/publications.js:306-315 | sorting keeps exactly the elements of the input |
| Sorting.InsertedBelow | assets/js/publications.js:306-315 | if neither the new element nor any old one sorts after a bound, no element of the insertion does |
| Sorting.InsertSortedTies | assets/js/publications.js:306-315 | with a consistent comparator, insertion puts the new element after every element tied with it and keeps the other tied elements in order |
| Sorting.SortByStable | assets/js/publications.js:306-315 | stability: with a consistent comparator, every group of tied elements keeps its input order |
| Seqs.Filter | assets/js/publications.js:297-304 | the filter result is no longer than the input, and every kept element passes |
| Seqs.FilterPasses | assets/js/publications.js:297-304 | every kept element occurs in the input and passes |
| Seqs.FilterSame | assets/js/publications.js:297-304 | two tests that agree on every element keep the same elements |
| Seqs.FilterMembers | assets/js/publications.js:297-304 | an element is kept iff it occurs in the input and passes |
| Seqs.FilterCounts | assets/js/publications.js:297-304 | every occurrence of a passing element is kept, and every other one is dropped |
| Seqs.FilterIsSubsequence | assets/js/publications.js:297-304 | the kept elements keep the input order |
| Seqs.FilterAppend | assets/js/publications.js:56 | filtering a concatenation filters each part |
| Seqs.FilterAll | assets/js/publications.js:56 | a filter that keeps everything changes nothing |
| Strings.TrimStart | assets/js/publications.js:55 | the trimmed start is no longer than the input |
| Strings.TrimStartFacts | assets/js/publications.js:55 | what is removed at the start is white space, and the rest is a suffix that does not start with white space |
| Strings.TrimEnd | assets/js/publications.js:55 | the trimmed end is no longer than the input |
| Strings.TrimEndFacts | assets/js/publications.js:55 | what is removed at the end is white space, and the rest is a prefix that does not end with white space |
| Strings.Trim | assets/js/publications.js:55 | the result neither starts nor ends with white space |
| Strings.TrimKeeps | assets/js/publications.js:55 | trimming only removes characters |
| Strings.TrimStartPadded | assets/js/publications.js:55 | white padding in front of a string not starting with white space is removed exactly |
| Strings.TrimEndPadded | assets/js/publications.js:55 | white padding behind a string not ending with white space is removed exactly |
| Strings.TrimPadded | assets/js/publications.js:169 | trimming removes exactly the white padding around a trimmed string |
| Strings.TrimTrimmed | assets/js/publications.js:55 | a trimmed string is its own trim |
| Strings.TrimIdempotent | assets/js/publications.js:55 | trimming twice is trimming once |
| Strings.Split | assets/js/publications.js:54 | at least one piece, none containing the separator |
| Strings.JoinSplit | assets/js/publications.js:54 | joining the pieces with the separator gives back the input |
| Strings.SplitNoSep | assets/js/publications.js:54 | a string without the separator is a single piece |
| Strings.SplitAfterPiece | assets/js/publications.js:54 | a separator after a separator-free piece starts a new piece |
| Strings.SplitJoin | assets/js/publications.js:54 | joining separator-free pieces and splitting again gives the pieces back |
| Strings.PrefixRest | assets/js/publications.js:340 | the first part is kept, and every later part gets the prefix |
| Strings.JoinPrefixFirst | assets/js/publications.js:340 | a prefix on the first part is a prefix on the joined string |
| Strings.JoinLongSeparator | assets/js/publications.js:340 | joining with ", " is joining with "," after putting a space in front of every later part |
| Strings.TrimAll | assets/js/publications.js:55 | each line is trimmed, one for one |
| Strings.LowerChar | assets/js/publications.js:294 | an ASCII capital maps to its small letter, and every other character is kept |
| Strings.Lower | assets/js/publications.js:294 | lower-casing is character by character and keeps the length |
| Strings.AbsentFirstChar | assets/js/publications.js:300 | a query whose first character is missing from the text is not contained in it |
| Strings.OccursAtTail | assets/js/publications.js:300 | an occurrence past the first position is an occurrence in the tail |
| Strings.ContainsIff | assets/js/publications.js:300 | `includes` is true iff the query occurs at some position |
| Strings.EmptyContained | assets/js/publications.js:304 | the empty query is contained in every string |

## Left out

- Rendering is left out: `renderPublication`, the HTML of the cards and the year options, Chart.js (`drawCitationChart` after its series) and the D3 force layout of `drawCoauthorGraph`, with its zoom and drag handlers. The model keeps the data each one is given.
- `fetch`, `localStorage`, `JSON.parse`/`JSON.stringify` and `Date.now` are injected. The services' answers are functions from the DOI to an optional record, and `None` stands for any network or decoding failure. The store is a map from keys to either an unparsable text or a decoded entry. The clock is a sequence of readings. Stringifying and parsing are taken to round-trip, and stored values that parse as JSON but are not entries are not modelled.
- `async`/`await` is modelled as sequential execution, in the order the script awaits. Event listeners re-running `applyFilters` are calls to `Dashboard.ApplyFilters`.
- `localeCompare` is an injected collation `collate`. The title orders are proved only for a collation that is a total preorder on the titles.
- `toLowerCase` covers the ASCII letters only. Unicode case mapping is not modelled.
- Values of unexpected JSON types are not modelled. This covers a non-numeric `cited_by_count`, non-string `title` entries, `null` author entries, and years given as strings. Object keys of `citationHistory` and `coauthorNodes` are `int` and `string` map keys, without JavaScript's key-string conversion and prototype keys such as `__proto__`. Citation counts are unbounded integers rather than doubles.
- The "Error loading DOI" lines are kept as the list of DOIs in `Dashboard.errors`. In the page, `applyFilters` then overwrites the container they were added to.
- `Filters.YearAscOrdered` and `Filters.YearDescOrdered`: no order is claimed when a year is "—" or `undefined`. The comparator then yields NaN, which SortCompare reads as +0, so such a comparator is not consistent.
- `Loader.YearOptionsDescending`: no order is claimed when a year is "—". Then `b - a` is NaN, which SortCompare reads as +0, so the comparator is not consistent; only the `undefined` years, which the sort sets aside, are placed.
- `Sorting.SortBy`: an insertion sort, proved to order the elements and to be stable for comparators that are total preorders (`Sorting.ConsistentOn`). That predicate does not ask the sign antisymmetry of ECMAScript's consistent comparator. So no claim is made that an engine's sort produces the same sequence. For any other comparator an engine's order is implementation-defined, and only the permutation property is claimed.
- Loader.Step, Loader.Accumulate, Loader.LoadAll, Loader.Dashboard.LoadPublications and Loader.Dashboard.ApplyFilters: they build records with the corrected `Records.FirstOr` (see Findings), not the code as written. As written, a CrossRef record with `title: []` stores an `undefined` title. Then `applyFilters` throws at line 300 even for the empty query, and the call at line 384 aborts the load before the chart and the network are built. The model does not capture this abort.
- `loadDOIs`' `fetch("/assets/dois.txt")` (line 51) is injected: the model takes the file's text as given. When that fetch fails, `loadPublications` rejects before line 329 resets anything, and the model does not capture that path.
- The listeners at lines 394-396 can run `applyFilters` while a load is still under way, on a partly filled `publications`. With sequential execution, the model runs `Dashboard.ApplyFilters` only between loads.
- Cache.CacheStore.Load, Cache.CacheStore.Save and Aggregator.Resolve: the store's `getItem` and `setItem` are assumed never to throw. `getItem` (line 17) lies outside the `try`, and a `setItem` that throws (line 37, for instance over quota) would make `fetchPublicationData` reject after both fetches succeeded, so the DOI would be reported. The model does not capture these paths.
- Aggregator.ResolveConsistent and Loader.ReloadSameState: the services are fixed functions of the DOI, so a reload is compared against answers that do not change between the two loads.
- `scripts/fetch_scholar.py` is not part of this model. It scrapes HTML and writes files.

## Findings

| source | as written | input that shows it | evidently intended | confidence | as-written member | corrected member |
|---|---|---|---|---|---|---|
| assets/js/publications.js:343-346 | `crossref.title ? crossref.title[0] : "Untitled"` (the same for `container-title`): an empty array is truthy, so the field becomes `undefined`, and `applyFilters` then throws on `.toLowerCase()` | a CrossRef record with `"container-title": []`, title "Graphs", authors "Ada Lovelace", and the search text "zeta" | an empty array falls back to the default ("Untitled", "Unknown journal"), so the search is total | medium, not executed | Filters.EmptyContainerTitleBreaksSearch | Records.BuildPublication |
