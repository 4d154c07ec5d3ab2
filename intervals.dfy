/** The total length covered by a list of integer intervals [x, y]: sort
 *  by start point, then sweep once, merging overlapping intervals. */
module Intervals {
  import opened Sorting

  const INT_MIN := -0x8000_0000

  /** A two-element int array {x, y} standing for [x, y]. */
  datatype Interval = Interval(lo: int, hi: int)

  /** Every interval has x <= y, and x is a Java int. */
  predicate Proper(s: seq<Interval>)
  {
    forall i :: 0 <= i < |s| ==> INT_MIN <= s[i].lo <= s[i].hi
  }

  predicate SortedByStart(s: seq<Interval>)
  {
    forall i, j :: 0 <= i < j < |s| ==> s[i].lo <= s[j].lo
  }

  /** The unit segments [t, t + 1] from LO up to HI. */
  function Span(lo: int, hi: int): (r: set<int>)
    ensures forall t :: t in r <==> lo <= t < hi
  {
    set t | lo <= t < hi && Within(t, lo, hi)
  }

  /** Membership in [lo, hi), named so that Span's comprehension has a
   *  term to match on. */
  predicate Within(t: int, lo: int, hi: int)
  {
    lo <= t < hi
  }

  /** The unit segments covered by some interval of S: the covered length
   *  is the number of them. */
  function Cells(s: seq<Interval>): (r: set<int>)
    ensures forall t :: t in r <==> exists i :: 0 <= i < |s| && s[i].lo <= t < s[i].hi
  {
    if s == [] then {} else Cells(s[..|s| - 1]) + Span(s[|s| - 1].lo, s[|s| - 1].hi)
  }

  lemma {:induction false} SpanSize(lo: int, hi: int)
    requires lo <= hi
    ensures |Span(lo, hi)| == hi - lo
    decreases hi - lo
  {
    if lo < hi {
      SpanSize(lo, hi - 1);
      assert Span(lo, hi) == Span(lo, hi - 1) + {hi - 1};
    } else {
      assert Span(lo, hi) == {};
    }
  }

  /** A new interval starting past END closes [start, end): its cells,
   *  all at or above START, join DONE without overlap. */
  lemma CloseRun(done: set<int>, start: int, end: int, x: int)
    requires start <= end < x && forall t :: t in done ==> t < start
    ensures |done + Span(start, end)| == |done| + (end - start)
    ensures forall t :: t in done + Span(start, end) ==> t < x
  {
    SpanSize(start, end);
    assert done * Span(start, end) == {};
  }

  /** An interval starting inside [start, end) and ending past it extends
   *  it. */
  lemma ExtendRun(start: int, end: int, x: int, y: int)
    requires start <= x <= end < y
    ensures Span(start, end) + Span(x, y) == Span(start, y)
  {
  }

  /** An interval inside [start, end) adds nothing. */
  lemma InsideRun(start: int, end: int, x: int, y: int)
    requires start <= x && y <= end
    ensures Span(start, end) + Span(x, y) == Span(start, end)
  {
  }

  lemma UnionAssoc(a: set<int>, b: set<int>, c: set<int>)
    ensures (a + b) + c == a + (b + c)
  {
  }

  lemma CellsAppend(s: seq<Interval>, i: int)
    requires 0 <= i < |s|
    ensures Cells(s[..i + 1]) == Cells(s[..i]) + Span(s[i].lo, s[i].hi)
  {
    assert s[..i + 1][..i] == s[..i];
  }

  /** The covered cells depend only on which intervals there are. */
  lemma CellsPermute(s: seq<Interval>, t: seq<Interval>)
    requires multiset(s) == multiset(t)
    ensures Cells(s) == Cells(t)
  {
    forall x | x in Cells(s) ensures x in Cells(t) {
      var u :| 0 <= u < |s| && s[u].lo <= x < s[u].hi;
      assert s[u] in multiset(t);
      var v :| 0 <= v < |t| && t[v] == s[u];
    }
    forall x | x in Cells(t) ensures x in Cells(s) {
      var u :| 0 <= u < |t| && t[u].lo <= x < t[u].hi;
      assert t[u] in multiset(s);
      var v :| 0 <= v < |s| && s[v] == t[u];
    }
  }

  /** intervals.sort by start point: a stable insertion sort stands in for
   *  the library's list sort. */
  method SortByStart(a: array<Interval>)
    modifies a
    ensures SortedByStart(a[..]) && multiset(a[..]) == multiset(old(a[..]))
  {
    var i := 0;
    while i < a.Length
      invariant 0 <= i <= a.Length
      invariant forall p, q :: 0 <= p < q < i ==> a[p].lo <= a[q].lo
      invariant multiset(a[..]) == multiset(old(a[..]))
    {
      var j := i;
      while j > 0 && a[j - 1].lo > a[j].lo
        invariant 0 <= j <= i
        invariant forall p, q :: 0 <= p < q <= i && q != j ==> a[p].lo <= a[q].lo
        invariant multiset(a[..]) == multiset(old(a[..]))
      {
        Swap(a, j - 1, j);
        j := j - 1;
      }
      i := i + 1;
    }
  }

  /** The sweep over intervals sorted by start: DIST holds the length of
   *  the finished merged intervals, [start, end) the one being grown. */
  method Sweep(a: array<Interval>) returns (dist: int)
    requires SortedByStart(a[..]) && Proper(a[..])
    ensures dist == |Cells(a[..])|
  {
    ghost var s := a[..];
    ghost var done: set<int> := {};
    dist := 0;
    var start, end := INT_MIN, INT_MIN;
    for i := 0 to a.Length
      invariant start <= end && dist == |done|
      invariant forall t :: t in done ==> t < start
      invariant forall k :: i <= k < |s| ==> start <= s[k].lo
      invariant Cells(s[..i]) == done + Span(start, end)
    {
      CellsAppend(s, i);
      ghost var c := Cells(s[..i + 1]);
      assert c == (done + Span(start, end)) + Span(a[i].lo, a[i].hi);
      if a[i].lo > end {
        CloseRun(done, start, end, a[i].lo);
        done := done + Span(start, end);
        dist := dist + (end - start);
        start := a[i].lo;
        end := a[i].hi;
        assert B1: c == done + Span(start, end);
      } else if a[i].hi > end {
        ExtendRun(start, end, a[i].lo, a[i].hi);
        UnionAssoc(done, Span(start, end), Span(a[i].lo, a[i].hi));
        end := a[i].hi;
        assert B2: c == done + Span(start, end);
      } else {
        InsideRun(start, end, a[i].lo, a[i].hi);
        UnionAssoc(done, Span(start, end), Span(a[i].lo, a[i].hi));
        assert B3: c == done + Span(start, end);
      }
    }
    CloseRun(done, start, end, end + 1);
    dist := dist + (end - start);
    assert s[..a.Length] == s;
  }

  /** Intervals.coveredLength: sorts the list in place by start point and
   *  returns the length of the union of its intervals. */
  method CoveredLength(a: array<Interval>) returns (dist: int)
    requires Proper(a[..])
    modifies a
    ensures SortedByStart(a[..]) && multiset(a[..]) == multiset(old(a[..]))
    ensures dist == |Cells(old(a[..]))|
  {
    SortByStart(a);
    CellsPermute(a[..], old(a[..]));
    forall i | 0 <= i < a.Length ensures INT_MIN <= a[i].lo <= a[i].hi {
      assert a[i] in multiset(old(a[..]));
    }
    dist := Sweep(a);
  }

  /** The test list {19, 30}, {8, 15}, {3, 10}, {6, 12}, {4, 5}. */
  function Example(): seq<Interval>
  {
    [Interval(19, 30), Interval(8, 15), Interval(3, 10), Interval(6, 12), Interval(4, 5)]
  }

  /** The test list covers [3, 15] and [19, 30]: length 23. */
  lemma ExampleCovers()
    ensures |Cells(Example())| == 23
  {
    var s := Example();
    forall t ensures t in Cells(s) <==> t in Span(3, 15) + Span(19, 30) {
      if 19 <= t < 30 {
        assert s[0].lo <= t < s[0].hi;
      } else if 8 <= t < 15 {
        assert s[1].lo <= t < s[1].hi;
      } else if 3 <= t < 10 {
        assert s[2].lo <= t < s[2].hi;
      }
    }
    assert Cells(s) == Span(3, 15) + Span(19, 30);
    CloseRun(Span(3, 15), 19, 30, 31);
    SpanSize(3, 15);
  }

  /** coveredLength gives 23 on the test list. */
  method ExampleLength() {
    var a := new Interval[] [Interval(19, 30), Interval(8, 15), Interval(3, 10), Interval(6, 12), Interval(4, 5)];
    assert a[..] == Example();
    var dist := CoveredLength(a);
    ExampleCovers();
    assert dist == 23;
  }
}
