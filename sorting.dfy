/** `Array.prototype.sort` with a comparator, as a stable insertion sort.
    A comparator returns a number whose sign orders two elements; ECMAScript's
    SortCompare turns a NaN or undefined result into +0, so the comparators
    of this model are functions to `int` in which those cases are already 0.
    ECMAScript requires the sort to be stable. For a comparator that is a
    total preorder on the elements (`ConsistentOn` below) this insertion sort
    is proved to put the elements in comparator order and to keep every
    group of tied elements in input order (`SortByStable`). `ConsistentOn`
    asks totality and transitivity of "does not sort after" only; it does not
    ask the sign antisymmetry of ECMAScript's consistent comparator, so no
    claim is made that another engine produces the same sequence. For a
    comparator outside that class only the permutation property is claimed. */
module Sorting {
  import opened Seqs

  /** `s` is in comparator order: no later element sorts before an earlier one. */
  predicate SortedBy<T(!new)>(s: seq<T>, cmp: (T, T) -> int) {
    forall i, j :: 0 <= i < j < |s| ==> cmp(s[i], s[j]) <= 0
  }

  /** The comparator is consistent on `dom`: a total preorder, as ECMAScript
      requires for a defined sort order. */
  ghost predicate ConsistentOn<T(!new)>(dom: set<T>, cmp: (T, T) -> int) {
    && (forall a, b :: a in dom && b in dom ==> cmp(a, b) <= 0 || cmp(b, a) <= 0)
    && (forall a, b, c :: a in dom && b in dom && c in dom && cmp(a, b) <= 0 && cmp(b, c) <= 0 ==> cmp(a, c) <= 0)
  }

  /** Inserts `x` into `r` after the last element that does not sort after it. */
  function InsertSorted<T(!new)>(r: seq<T>, x: T, cmp: (T, T) -> int): (o: seq<T>)
    ensures multiset(o) == multiset(r) + multiset{x}
    ensures forall y :: y in o <==> y in r || y == x
    decreases |r|
  {
    if r == [] then [x]
    else if cmp(r[|r| - 1], x) <= 0 then r + [x]
    else
      assert r == r[..|r| - 1] + [r[|r| - 1]];
      InsertSorted(r[..|r| - 1], x, cmp) + [r[|r| - 1]]
  }

  /** `s.sort(cmp)`: each element in turn is inserted into the sorted prefix. */
  function SortBy<T(!new)>(s: seq<T>, cmp: (T, T) -> int): (o: seq<T>)
    ensures multiset(o) == multiset(s)
    decreases |s|
  {
    if s == [] then []
    else
      assert s == s[..|s| - 1] + [s[|s| - 1]];
      InsertSorted(SortBy(s[..|s| - 1], cmp), s[|s| - 1], cmp)
  }

  /** Sorting keeps the elements. */
  lemma SortByMembers<T(!new)>(s: seq<T>, cmp: (T, T) -> int)
    ensures forall x :: x in SortBy(s, cmp) <==> x in s
  {
    forall x ensures x in SortBy(s, cmp) <==> x in s {
      assert x in SortBy(s, cmp) <==> multiset(SortBy(s, cmp))[x] > 0;
      assert x in s <==> multiset(s)[x] > 0;
    }
  }

  /** Appending an element that no earlier element sorts after keeps order. */
  lemma AppendSorted<T(!new)>(r: seq<T>, x: T, cmp: (T, T) -> int)
    requires SortedBy(r, cmp)
    requires forall i :: 0 <= i < |r| ==> cmp(r[i], x) <= 0
    ensures SortedBy(r + [x], cmp)
  {
    var o := r + [x];
    forall i, j | 0 <= i < j < |o| ensures cmp(o[i], o[j]) <= 0 {
      if j < |r| {
        assert o[i] == r[i] && o[j] == r[j];
      }
    }
  }

  /** If neither `x` nor any element of `r` sorts after `b`, no element of
      the insertion does. */
  lemma InsertedBelow<T(!new)>(r: seq<T>, x: T, b: T, cmp: (T, T) -> int)
    requires forall i :: 0 <= i < |r| ==> cmp(r[i], b) <= 0
    requires cmp(x, b) <= 0
    ensures forall i :: 0 <= i < |InsertSorted(r, x, cmp)| ==> cmp(InsertSorted(r, x, cmp)[i], b) <= 0
  {
    var q := InsertSorted(r, x, cmp);
    forall i | 0 <= i < |q| ensures cmp(q[i], b) <= 0 {
      assert q[i] in q;
      if q[i] != x {
        assert q[i] in r;
        if forall k :: 0 <= k < |r| ==> r[k] != q[i] {
          assert false;
        }
        var k :| 0 <= k < |r| && r[k] == q[i];
      }
    }
  }

  lemma {:induction false} InsertSortedSorted<T(!new)>(r: seq<T>, x: T, cmp: (T, T) -> int, dom: set<T>)
    requires ConsistentOn(dom, cmp)
    requires forall i :: 0 <= i < |r| ==> r[i] in dom
    requires x in dom
    requires SortedBy(r, cmp)
    ensures SortedBy(InsertSorted(r, x, cmp), cmp)
    decreases |r|
  {
    if r != [] {
      var n := |r|;
      var last := r[n - 1];
      if cmp(last, x) <= 0 {
        forall i | 0 <= i < n ensures cmp(r[i], x) <= 0 {
          if i < n - 1 {
            assert cmp(r[i], last) <= 0;
          }
        }
        AppendSorted(r, x, cmp);
      } else {
        var r' := r[..n - 1];
        assert cmp(x, last) <= 0;
        assert SortedBy(r', cmp) by {
          forall i, j | 0 <= i < j < |r'| ensures cmp(r'[i], r'[j]) <= 0 {
            assert r'[i] == r[i] && r'[j] == r[j];
          }
        }
        InsertSortedSorted(r', x, cmp, dom);
        forall i | 0 <= i < |r'| ensures cmp(r'[i], last) <= 0 {
          assert cmp(r[i], r[n - 1]) <= 0;
        }
        InsertedBelow(r', x, last, cmp);
        AppendSorted(InsertSorted(r', x, cmp), last, cmp);
      }
    }
  }

  /** With a consistent comparator the result is in comparator order. */
  lemma {:induction false} SortBySorted<T(!new)>(s: seq<T>, cmp: (T, T) -> int, dom: set<T>)
    requires ConsistentOn(dom, cmp)
    requires forall i :: 0 <= i < |s| ==> s[i] in dom
    ensures SortedBy(SortBy(s, cmp), cmp)
    decreases |s|
  {
    if s != [] {
      var init := s[..|s| - 1];
      assert forall i :: 0 <= i < |init| ==> init[i] == s[i];
      SortBySorted(init, cmp, dom);
      var r := SortBy(init, cmp);
      forall i | 0 <= i < |r| ensures r[i] in dom {
        assert multiset(r)[r[i]] > 0;
        assert r[i] in init;
      }
      InsertSortedSorted(r, s[|s| - 1], cmp, dom);
    }
  }

  /** A prefix of a sequence in comparator order is in comparator order. */
  lemma SortedInit<T(!new)>(s: seq<T>, cmp: (T, T) -> int)
    requires s != [] && SortedBy(s, cmp)
    ensures SortedBy(s[..|s| - 1], cmp)
    ensures |s| >= 2 ==> cmp(s[|s| - 2], s[|s| - 1]) <= 0
  {
    var init := s[..|s| - 1];
    forall i, j | 0 <= i < j < |init| ensures cmp(init[i], init[j]) <= 0 {
      assert init[i] == s[i] && init[j] == s[j];
    }
  }

  /** Stability on sorted input: a sequence already in comparator order is
      left as it is. In particular a comparator that calls every pair equal
      does not reorder anything. */
  lemma {:induction false} SortByKeepsSorted<T(!new)>(s: seq<T>, cmp: (T, T) -> int)
    requires SortedBy(s, cmp)
    ensures SortBy(s, cmp) == s
    decreases |s|
  {
    if s != [] {
      var init := s[..|s| - 1];
      var x := s[|s| - 1];
      SortedInit(s, cmp);
      SortByKeepsSorted(init, cmp);
      assert s == init + [x];
      if init != [] {
        assert init[|init| - 1] == s[|s| - 2];
      }
    }
  }

  /** The elements tied with `x`: neither sorts after the other. */
  function Ties<T>(cmp: (T, T) -> int, x: T): T -> bool {
    z => cmp(z, x) <= 0 && cmp(x, z) <= 0
  }

  /** An element that sorts after `y` is not tied with anything tied with `y`. */
  lemma AfterNotTied<T(!new)>(cmp: (T, T) -> int, dom: set<T>, x: T, y: T, z: T)
    requires ConsistentOn(dom, cmp)
    requires x in dom && y in dom && z in dom
    requires Ties(cmp, x)(y) && cmp(z, y) > 0
    ensures !Ties(cmp, x)(z)
  {
  }

  /** The two ways of ordering `y` and the element `z` after it agree on ties. */
  lemma TiesAfter<T(!new)>(a: seq<T>, fy: seq<T>, fz: seq<T>, cmp: (T, T) -> int, dom: set<T>, x: T, y: T, z: T)
    requires ConsistentOn(dom, cmp)
    requires x in dom && y in dom && z in dom && cmp(z, y) > 0
    requires fy == Filter([y], Ties(cmp, x)) && fz == Filter([z], Ties(cmp, x))
    ensures a + fy + fz == a + fz + fy
  {
    if Ties(cmp, x)(y) {
      AfterNotTied(cmp, dom, x, y, z);
      assert fz == [];
    } else {
      assert fy == [];
    }
  }

  /** Inserting `y` puts it after every element tied with it already there,
      and leaves the other tied elements in their order. */
  lemma {:induction false} InsertSortedTies<T(!new)>(r: seq<T>, y: T, cmp: (T, T) -> int, dom: set<T>, x: T)
    requires ConsistentOn(dom, cmp)
    requires forall i :: 0 <= i < |r| ==> r[i] in dom
    requires x in dom && y in dom
    ensures Filter(InsertSorted(r, y, cmp), Ties(cmp, x))
         == Filter(r, Ties(cmp, x)) + Filter([y], Ties(cmp, x))
    decreases |r|
  {
    var tie := Ties(cmp, x);
    if r == [] {
      assert InsertSorted(r, y, cmp) == [y];
      assert Filter(r, tie) == [];
    } else if cmp(r[|r| - 1], y) <= 0 {
      assert InsertSorted(r, y, cmp) == r + [y];
      FilterAppend(r, [y], tie);
    } else {
      var init := r[..|r| - 1];
      var last := r[|r| - 1];
      var q := InsertSorted(init, y, cmp);
      assert InsertSorted(r, y, cmp) == q + [last];
      assert r == init + [last];
      assert forall i :: 0 <= i < |init| ==> init[i] in dom by {
        forall i | 0 <= i < |init| ensures init[i] in dom {
          assert init[i] == r[i];
        }
      }
      assert last in dom;
      InsertSortedTies(init, y, cmp, dom, x);
      FilterAppend(q, [last], tie);
      FilterAppend(init, [last], tie);
      TiesAfter(Filter(init, tie), Filter([y], tie), Filter([last], tie), cmp, dom, x, y, last);
    }
  }

  /** Stability: every group of tied elements keeps its input order. */
  lemma {:induction false} SortByStable<T(!new)>(s: seq<T>, cmp: (T, T) -> int, dom: set<T>, x: T)
    requires ConsistentOn(dom, cmp)
    requires forall i :: 0 <= i < |s| ==> s[i] in dom
    requires x in dom
    ensures Filter(SortBy(s, cmp), Ties(cmp, x)) == Filter(s, Ties(cmp, x))
    decreases |s|
  {
    if s != [] {
      var init := s[..|s| - 1];
      var last := s[|s| - 1];
      assert s == init + [last];
      assert forall i :: 0 <= i < |init| ==> init[i] == s[i];
      SortByStable(init, cmp, dom, x);
      var r := SortBy(init, cmp);
      forall i | 0 <= i < |r| ensures r[i] in dom {
        assert multiset(r)[r[i]] > 0;
        assert r[i] in init;
      }
      InsertSortedTies(r, last, cmp, dom, x);
      FilterAppend(init, [last], Ties(cmp, x));
    }
  }
}
