/** The year-indexed citation history the loader accumulates, and the series
    `drawCitationChart` derives from it before handing them to the chart
    library. */
module Citations {
  import opened Records
  import opened Seqs

  type History = map<int, int>

  /** `citationHistory[y] || 0`. */
  function CitationsIn(h: History, y: int): int {
    if y in h then h[y] else 0
  }

  /** `history.forEach(e => citationHistory[e.year] = (citationHistory[e.year] || 0) + e.cited_by_count)`,
      entry by entry from the left. */
  function AddHistory(h: History, entries: seq<YearCount>): (r: History)
    ensures h.Keys <= r.Keys
    ensures forall i :: 0 <= i < |entries| ==> entries[i].year in r
    decreases |entries|
  {
    if entries == [] then h
    else
      var prev := AddHistory(h, entries[..|entries| - 1]);
      var e := entries[|entries| - 1];
      prev[e.year := CitationsIn(prev, e.year) + e.citedByCount]
  }

  /** The sum of the counts that `entries` give for year `y`. */
  function YearTotal(entries: seq<YearCount>, y: int): int
    decreases |entries|
  {
    if entries == [] then 0
    else
      var e := entries[|entries| - 1];
      YearTotal(entries[..|entries| - 1], y) + (if e.year == y then e.citedByCount else 0)
  }

  /** The years that `entries` mention. */
  function YearsOf(entries: seq<YearCount>): set<int> {
    set i | 0 <= i < |entries| :: entries[i].year
  }

  /** Summation, not overwriting: after adding `entries`, every year holds its
      previous total plus everything the entries contribute to it, and the
      years present are the previous ones and those the entries mention. */
  lemma {:induction false} AddHistoryTotals(h: History, entries: seq<YearCount>)
    ensures forall y :: CitationsIn(AddHistory(h, entries), y) == CitationsIn(h, y) + YearTotal(entries, y)
    ensures AddHistory(h, entries).Keys == h.Keys + YearsOf(entries)
    decreases |entries|
  {
    if entries != [] {
      var init := entries[..|entries| - 1];
      AddHistoryTotals(h, init);
      assert YearsOf(entries) == YearsOf(init) + {entries[|entries| - 1].year} by {
        assert forall i :: 0 <= i < |init| ==> init[i] == entries[i];
      }
    }
  }

  /** Totals over a concatenation add up. */
  lemma {:induction false} YearTotalAppend(a: seq<YearCount>, b: seq<YearCount>, y: int)
    ensures YearTotal(a + b, y) == YearTotal(a, y) + YearTotal(b, y)
    decreases |b|
  {
    if b == [] {
      assert a + b == a;
    } else {
      assert (a + b)[..|a + b| - 1] == a + b[..|b| - 1];
      YearTotalAppend(a, b[..|b| - 1], y);
    }
  }

  /** Adding entries in two batches is adding them all at once. */
  lemma {:induction false} AddHistoryAppend(h: History, a: seq<YearCount>, b: seq<YearCount>)
    ensures AddHistory(AddHistory(h, a), b) == AddHistory(h, a + b)
    decreases |b|
  {
    if b == [] {
      assert a + b == a;
    } else {
      assert (a + b)[..|a + b| - 1] == a + b[..|b| - 1];
      AddHistoryAppend(h, a, b[..|b| - 1]);
    }
  }

  /** A strictly increasing sequence. */
  predicate StrictlyIncreasing(s: seq<int>) {
    forall i, j :: 0 <= i < j < |s| ==> s[i] < s[j]
  }

  /** `m` is the least element of `s`. */
  predicate IsMin(s: set<int>, m: int) {
    m in s && forall y :: y in s ==> m <= y
  }

  lemma {:induction false} MinExists(s: set<int>)
    requires s != {}
    ensures exists m :: IsMin(s, m)
    decreases |s|
  {
    if forall y :: y !in s {
      assert false;
    }
    var x :| x in s;
    var rest := s - {x};
    if rest == {} {
      assert s == {x};
      assert IsMin(s, x);
    } else {
      MinExists(rest);
      var m :| IsMin(rest, m);
      var lo := if x < m then x else m;
      forall y | y in s ensures lo <= y {
        if y != x { assert y in rest; }
      }
      assert IsMin(s, lo);
    }
  }

  /** The least element of a finite non-empty set of integers. */
  function MinOf(s: set<int>): (m: int)
    requires s != {}
    ensures IsMin(s, m)
  {
    MinExists(s);
    var m :| IsMin(s, m);
    m
  }

  /** The integers of a finite set in ascending order: what
      `Object.keys(citationHistory).sort((a, b) => a - b)` lists. */
  function SortedKeys(s: set<int>): (r: seq<int>)
    ensures StrictlyIncreasing(r)
    ensures |r| == |s|
    ensures forall y :: y in r <==> y in s
    decreases |s|
  {
    if s == {} then []
    else
      var m := MinOf(s);
      var rest := SortedKeys(s - {m});
      assert forall i :: 0 <= i < |rest| ==> m < rest[i] by {
        forall i | 0 <= i < |rest| ensures m < rest[i] {
          assert rest[i] in rest;
        }
      }
      [m] + rest
  }

  /** The three series of the citation timeline. */
  datatype ChartSeries = ChartSeries(years: seq<int>, citations: seq<int>, publications: seq<nat>)

  /** The publications whose year loosely equals the key `y`: `p.year == y`
      holds for a numeric year with that value and for nothing else. */
  function PublishedIn(pubs: seq<Publication>, y: int): seq<Publication> {
    Filter(pubs, (p: Publication) => p.year == Num(y))
  }

  /** `drawCitationChart`'s data: the history's years ascending, the
      citations of each year, and the number of publications of each year. */
  function Chart(pubs: seq<Publication>, h: History): (c: ChartSeries)
    ensures StrictlyIncreasing(c.years)
    ensures forall y :: y in c.years <==> y in h
    ensures |c.citations| == |c.years| && |c.publications| == |c.years|
    ensures forall i :: 0 <= i < |c.years| ==> c.years[i] in h && c.citations[i] == h[c.years[i]]
    ensures forall i :: 0 <= i < |c.years| ==> c.publications[i] == |PublishedIn(pubs, c.years[i])|
  {
    var years := SortedKeys(h.Keys);
    ChartSeries(
      years,
      seq(|years|, i requires 0 <= i < |years| => h[years[i]]),
      seq(|years|, i requires 0 <= i < |years| => |PublishedIn(pubs, years[i])|))
  }
}
