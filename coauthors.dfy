/** The co-author network `buildCoauthorNetwork` derives from the loaded
    publications: a node per author name, counting the name's occurrences in
    author lists, and an edge per pair of positions in each author list. The
    loops that build it are `Loader.Dashboard.BuildCoauthorNetwork`; these are
    the values they compute. */
module Coauthors {
  import opened Strings
  import opened Records

  /** `pub.authors.split(",").map(a => a.trim())`. */
  function AuthorNames(authors: string): (names: seq<string>)
    ensures |names| >= 1
  {
    TrimAll(Split(authors, ','))
  }

  /** Every name is trimmed and free of the separator. */
  lemma AuthorNamesClean(authors: string, i: nat)
    requires i < |AuthorNames(authors)|
    ensures IsTrimmed(AuthorNames(authors)[i])
    ensures ',' !in AuthorNames(authors)[i]
  {
    var pieces := Split(authors, ',');
    if ',' in Trim(pieces[i]) {
      TrimKeeps(pieces[i], ',');
    }
  }

  /** Splitting names joined by ", " at the commas gives the names, each
      later one behind a space. */
  lemma SplitJoinedNames(names: seq<string>)
    requires |names| >= 1
    requires forall i :: 0 <= i < |names| ==> ',' !in names[i]
    ensures Split(Join(names, ", "), ',') == PrefixRest(names, " ")
  {
    var spaced := PrefixRest(names, " ");
    JoinLongSeparator(names, ',', " ");
    assert [','] + " " == ", ";
    forall i | 0 <= i < |spaced| ensures ',' !in spaced[i] {
      if i > 0 {
        assert spaced[i] == " " + names[i];
      }
    }
    SplitJoin(spaced, ',');
  }

  lemma TrimSpacedNames(names: seq<string>)
    requires forall i :: 0 <= i < |names| ==> IsTrimmed(names[i])
    ensures TrimAll(PrefixRest(names, " ")) == names
  {
    var spaced := PrefixRest(names, " ");
    forall i | 0 <= i < |spaced| ensures Trim(spaced[i]) == names[i] {
      if i == 0 {
        TrimTrimmed(names[0]);
      } else {
        assert spaced[i] == " " + names[i] + "";
        TrimPadded(" ", names[i], "");
      }
    }
  }

  /** Round trip with the loader's author string: names without commas and
      without surrounding white space, joined by ", ", split back into the
      same names. */
  lemma AuthorNamesJoin(names: seq<string>)
    requires |names| >= 1
    requires forall i :: 0 <= i < |names| ==> IsTrimmed(names[i]) && ',' !in names[i]
    ensures AuthorNames(Join(names, ", ")) == names
  {
    SplitJoinedNames(names);
    TrimSpacedNames(names);
  }

  /** The count of an author's node; a missing node counts 0. */
  function Count(nodes: map<string, nat>, a: string): nat {
    if a in nodes then nodes[a] else 0
  }

  /** `authors.forEach(...)` over one author list: create a missing node with
      count 0, then increment it. */
  function Tally(nodes: map<string, nat>, names: seq<string>): (r: map<string, nat>)
    ensures nodes.Keys <= r.Keys
    ensures (forall a :: a in nodes ==> nodes[a] >= 1) ==> forall a :: a in r ==> r[a] >= 1
    decreases |names|
  {
    if names == [] then nodes
    else
      var prev := Tally(nodes, names[..|names| - 1]);
      var a := names[|names| - 1];
      prev[a := Count(prev, a) + 1]
  }

  /** Tallying adds each name's number of occurrences in the list, and the
      nodes present afterwards are the earlier ones and the listed names. */
  lemma {:induction false} TallyCounts(nodes: map<string, nat>, names: seq<string>)
    ensures forall a :: Count(Tally(nodes, names), a) == Count(nodes, a) + multiset(names)[a]
    ensures forall a :: a in Tally(nodes, names) <==> a in nodes || a in names
    decreases |names|
  {
    if names != [] {
      var init := names[..|names| - 1];
      TallyCounts(nodes, init);
      assert names == init + [names[|names| - 1]];
      assert multiset(names) == multiset(init) + multiset{names[|names| - 1]};
    }
  }

  /** The author list of every publication, in order. */
  function AuthorLists(pubs: seq<Publication>): (lists: seq<seq<string>>)
    ensures |lists| == |pubs|
    ensures forall k :: 0 <= k < |pubs| ==> lists[k] == AuthorNames(pubs[k].authors)
  {
    seq(|pubs|, k requires 0 <= k < |pubs| => AuthorNames(pubs[k].authors))
  }

  /** The nodes after the whole `publications.forEach`, over the author lists. */
  function NodeCounts(lists: seq<seq<string>>): (r: map<string, nat>)
    ensures forall a :: a in r ==> r[a] >= 1
    decreases |lists|
  {
    if lists == [] then map[]
    else Tally(NodeCounts(lists[..|lists| - 1]), lists[|lists| - 1])
  }

  /** The number of times `a` appears, over all the author lists. */
  function Occurrences(lists: seq<seq<string>>, a: string): nat
    decreases |lists|
  {
    if lists == [] then 0
    else multiset(lists[0])[a] + Occurrences(lists[1..], a)
  }

  lemma {:induction false} OccurrencesAppend(lists: seq<seq<string>>, names: seq<string>, a: string)
    ensures Occurrences(lists + [names], a) == Occurrences(lists, a) + multiset(names)[a]
    decreases |lists|
  {
    if lists == [] {
      assert ([names])[1..] == [];
    } else {
      assert (lists + [names])[1..] == lists[1..] + [names];
      OccurrencesAppend(lists[1..], names, a);
    }
  }

  /** A node's count is the number of occurrences of its name in the author
      lists (a name listed twice in one publication counts twice), and there
      is a node for exactly the names that occur. */
  lemma {:induction false} NodeCountsOccurrences(lists: seq<seq<string>>, a: string)
    ensures Count(NodeCounts(lists), a) == Occurrences(lists, a)
    ensures a in NodeCounts(lists) <==> Occurrences(lists, a) > 0
    decreases |lists|
  {
    if lists != [] {
      var init := lists[..|lists| - 1];
      var last := lists[|lists| - 1];
      NodeCountsOccurrences(init, a);
      TallyCounts(NodeCounts(init), last);
      assert lists == init + [last];
      OccurrencesAppend(init, last, a);
      assert a in last <==> multiset(last)[a] > 0;
    }
  }

  /** A single publication whose author list names the same person twice
      gives that person's node the count 2, not the number of publications. */
  lemma RepeatedNameCountsTwice(p: Publication)
    requires p.authors == "Ada Lovelace, Ada Lovelace"
    ensures Count(NodeCounts(AuthorLists([p])), "Ada Lovelace") == 2
  {
    var names := ["Ada Lovelace", "Ada Lovelace"];
    assert IsTrimmed(names[0]);
    assert Join(names, ", ") == p.authors;
    AuthorNamesJoin(names);
    assert AuthorLists([p]) == [names];
    NodeCountsOccurrences([names], "Ada Lovelace");
    assert ([names])[1..] == [];
    assert multiset(names)["Ada Lovelace"] == 2;
  }

  /** One edge `{ source, target }`. */
  datatype Edge = Edge(source: string, target: string)

  /** The edges the inner loop pushes for position `i`: to every later position. */
  function Row(names: seq<string>, i: nat): (r: seq<Edge>)
    requires i < |names|
    ensures |r| == |names| - i - 1
    ensures forall k :: 0 <= k < |r| ==> r[k] == Edge(names[i], names[i + 1 + k])
  {
    seq(|names| - i - 1, k requires 0 <= k < |names| - i - 1 => Edge(names[i], names[i + 1 + k]))
  }

  /** The edges of the first `i` rounds of the outer loop. */
  function Pairs(names: seq<string>, i: nat): seq<Edge>
    requires i <= |names|
  {
    if i == 0 then [] else Pairs(names, i - 1) + Row(names, i - 1)
  }

  /** All the edges for one author list. */
  function AllPairs(names: seq<string>): seq<Edge> {
    Pairs(names, |names|)
  }

  lemma {:induction false} PairsCount(names: seq<string>, i: nat)
    requires i <= |names|
    ensures 2 * |Pairs(names, i)| == i * (2 * |names| - i - 1)
  {
    if i > 0 {
      PairsCount(names, i - 1);
      var n := |names|;
      assert (i - 1) * (2 * n - i) + 2 * (n - i) == i * (2 * n - i - 1);
    }
  }

  /** An author list of n names gives n(n-1)/2 edges. */
  lemma AllPairsCount(names: seq<string>)
    ensures 2 * |AllPairs(names)| == |names| * (|names| - 1)
  {
    PairsCount(names, |names|);
  }

  lemma {:induction false} PairsMembers(names: seq<string>, i: nat, e: Edge)
    requires i <= |names|
    ensures e in Pairs(names, i) <==>
      exists a, b :: 0 <= a < i && a < b < |names| && e == Edge(names[a], names[b])
  {
    if i > 0 {
      PairsMembers(names, i - 1, e);
      var row := Row(names, i - 1);
      if e in row {
        var k :| 0 <= k < |row| && row[k] == e;
        assert e == Edge(names[i - 1], names[i + k]);
      }
      if exists a, b :: 0 <= a < i && a < b < |names| && e == Edge(names[a], names[b]) {
        var a, b :| 0 <= a < i && a < b < |names| && e == Edge(names[a], names[b]);
        if a == i - 1 {
          assert row[b - i] == e;
        }
      }
    }
  }

  /** The edges of one author list join exactly the pairs of positions
      i < j. Nothing is deduplicated: a name listed twice gets an edge to
      itself. */
  lemma AllPairsMembers(names: seq<string>, e: Edge)
    ensures e in AllPairs(names) <==>
      exists a, b :: 0 <= a < b < |names| && e == Edge(names[a], names[b])
  {
    PairsMembers(names, |names|, e);
  }

  /** Both ends of the edge are names on one publication's author list. */
  predicate SharedList(lists: seq<seq<string>>, e: Edge) {
    exists k :: 0 <= k < |lists| && e.source in lists[k] && e.target in lists[k]
  }

  /** Both ends of every edge of one list are names on that list. */
  lemma AllPairsWithin(names: seq<string>)
    ensures forall e :: e in AllPairs(names) ==> e.source in names && e.target in names
  {
    forall e | e in AllPairs(names) ensures e.source in names && e.target in names {
      AllPairsMembers(names, e);
    }
  }

  /** The edges after the whole `publications.forEach`, over the author lists. */
  function NetworkEdges(lists: seq<seq<string>>): (r: seq<Edge>)
    ensures forall i :: 0 <= i < |r| ==> SharedList(lists, r[i])
    decreases |lists|
  {
    if lists == [] then []
    else
      var init := lists[..|lists| - 1];
      var last := lists[|lists| - 1];
      var prev := NetworkEdges(init);
      assert forall i :: 0 <= i < |prev| ==> SharedList(lists, prev[i]) by {
        forall i | 0 <= i < |prev| ensures SharedList(lists, prev[i]) {
          var k :| 0 <= k < |init| && prev[i].source in init[k] && prev[i].target in init[k];
          assert init[k] == lists[k];
        }
      }
      AllPairsWithin(last);
      assert forall e :: e in AllPairs(last) ==> SharedList(lists, e) by {
        forall e | e in AllPairs(last) ensures SharedList(lists, e) {
          assert lists[|lists| - 1] == last;
        }
      }
      prev + AllPairs(last)
  }

  /** Edges of several publications are the edges of each, in order. */
  lemma {:induction false} NetworkEdgesAppend(a: seq<seq<string>>, b: seq<seq<string>>)
    ensures NetworkEdges(a + b) == NetworkEdges(a) + NetworkEdges(b)
    decreases |b|
  {
    if b == [] {
      assert a + b == a;
    } else {
      var init := b[..|b| - 1];
      var last := b[|b| - 1];
      assert (a + b)[..|a + b| - 1] == a + init;
      assert (a + b)[|a + b| - 1] == last;
      NetworkEdgesAppend(a, init);
      var ea, ei, el := NetworkEdges(a), NetworkEdges(init), AllPairs(last);
      assert NetworkEdges(a + b) == ea + ei + el;
      assert NetworkEdges(b) == ei + el;
      assert ea + ei + el == ea + (ei + el);
    }
  }

  /** An edge of the network comes from some publication's author list. */
  lemma {:induction false} NetworkEdgesMembers(lists: seq<seq<string>>, e: Edge)
    ensures e in NetworkEdges(lists) <==>
      exists k :: 0 <= k < |lists| && e in AllPairs(lists[k])
    decreases |lists|
  {
    if lists != [] {
      var init := lists[..|lists| - 1];
      NetworkEdgesMembers(init, e);
      assert forall k :: 0 <= k < |init| ==> init[k] == lists[k];
    }
  }

  /** One publication by "A, B, C" gives the three edges A-B, A-C and B-C, in
      that order, and a node of count 1 for each name. */
  lemma ThreeAuthors(p: Publication)
    requires p.authors == "A, B, C"
    ensures NetworkEdges(AuthorLists([p])) == [Edge("A", "B"), Edge("A", "C"), Edge("B", "C")]
    ensures forall a :: Count(NodeCounts(AuthorLists([p])), a) == (if a in ["A", "B", "C"] then 1 else 0)
  {
    var names := ["A", "B", "C"];
    ThreeNamesParsed(p);
    ThreeNamesPairs();
    SingleList(names);
    forall a ensures multiset(names)[a] == (if a in names then 1 else 0) {
    }
  }

  /** "A, B, C" is the author list "A", "B", "C". */
  lemma ThreeNamesParsed(p: Publication)
    requires p.authors == "A, B, C"
    ensures AuthorLists([p]) == [["A", "B", "C"]]
  {
    var names := ["A", "B", "C"];
    assert Join(names, ", ") == p.authors;
    AuthorNamesJoin(names);
  }

  /** One publication's list: its pairs are the edges, and each name's count
      is its number of occurrences on the list. */
  lemma SingleList(names: seq<string>)
    ensures NetworkEdges([names]) == AllPairs(names)
    ensures forall a :: Count(NodeCounts([names]), a) == multiset(names)[a]
  {
    assert ([names])[..0] == [];
    assert NetworkEdges([names]) == NetworkEdges([]) + AllPairs(names);
    forall a ensures Count(NodeCounts([names]), a) == multiset(names)[a] {
      NodeCountsOccurrences([names], a);
      assert ([names])[1..] == [];
    }
  }

  /** The pairs of the list "A", "B", "C", in loop order. */
  lemma ThreeNamesPairs()
    ensures AllPairs(["A", "B", "C"]) == [Edge("A", "B"), Edge("A", "C"), Edge("B", "C")]
  {
    var names := ["A", "B", "C"];
    assert Row(names, 0) == [Edge("A", "B"), Edge("A", "C")];
    assert Row(names, 1) == [Edge("B", "C")];
    assert Row(names, 2) == [];
    assert Pairs(names, 1) == Row(names, 0);
    assert Pairs(names, 2) == Row(names, 0) + Row(names, 1);
    assert Pairs(names, 3) == Pairs(names, 2) + [];
  }

  /** Two publications each by "A" alone give A the count 2 and no edge. */
  lemma SoleAuthorTwice(p: Publication, q: Publication)
    requires p.authors == "A" && q.authors == "A"
    ensures Count(NodeCounts(AuthorLists([p, q])), "A") == 2
    ensures NetworkEdges(AuthorLists([p, q])) == []
  {
    var names := ["A"];
    assert Join(names, ", ") == "A";
    AuthorNamesJoin(names);
    assert AuthorNames(p.authors) == names && AuthorNames(q.authors) == names;
    assert AuthorLists([p, q]) == [names, names];
    assert [names, names][..1] == [names];
    assert ([names])[..0] == [];
    assert Row(names, 0) == [];
    assert AllPairs(names) == Pairs(names, 0) + [];
    assert NetworkEdges([names]) == [];
    NodeCountsOccurrences([names, names], "A");
    assert [names, names][1..] == [names];
    assert ([names])[1..] == [];
    assert multiset(names)["A"] == 1;
    assert Occurrences([names], "A") == 1 + Occurrences([], "A");
    assert Occurrences([names, names], "A") == 1 + Occurrences([names], "A");
  }
}
