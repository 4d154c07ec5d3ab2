/** Top-down merge sort of an int array range, merging through two
 *  temporary copies of the halves. */
module MergeSort {
  import opened Sorting

  /** The merge of X and Y: the smaller head goes first, and the head of X
   *  wins a tie. */
  function Merged(x: seq<int>, y: seq<int>): (r: seq<int>)
    ensures |r| == |x| + |y|
    decreases |x| + |y|
  {
    if x == [] then y
    else if y == [] then x
    else if x[0] <= y[0] then [x[0]] + Merged(x[1..], y)
    else [y[0]] + Merged(x, y[1..])
  }

  /** Merging permutes the two inputs together. */
  lemma {:induction false} MergedPermutes(x: seq<int>, y: seq<int>)
    ensures multiset(Merged(x, y)) == multiset(x) + multiset(y)
    decreases |x| + |y|
  {
    if x != [] && y != [] {
      if x[0] <= y[0] {
        assert x == [x[0]] + x[1..];
        MergedPermutes(x[1..], y);
      } else {
        assert y == [y[0]] + y[1..];
        MergedPermutes(x, y[1..]);
      }
    }
  }

  /** No entry of S is below H. */
  predicate Above(h: int, s: seq<int>) {
    forall u :: 0 <= u < |s| ==> h <= s[u]
  }

  /** A bound below both inputs bounds their merge. */
  lemma {:induction false} MergedAbove(h: int, x: seq<int>, y: seq<int>)
    requires Above(h, x) && Above(h, y)
    ensures Above(h, Merged(x, y))
    decreases |x| + |y|
  {
    if x != [] && y != [] {
      if x[0] <= y[0] {
        MergedAbove(h, x[1..], y);
      } else {
        MergedAbove(h, x, y[1..]);
      }
    }
  }

  /** Merging sorted inputs gives a sorted result. */
  lemma {:induction false} MergedSorted(x: seq<int>, y: seq<int>)
    requires Sorted(x) && Sorted(y)
    ensures Sorted(Merged(x, y))
    decreases |x| + |y|
  {
    if x != [] && y != [] {
      if x[0] <= y[0] {
        MergedSorted(x[1..], y);
        MergedAbove(x[0], x[1..], y);
      } else {
        MergedSorted(x, y[1..]);
        MergedAbove(y[0], x, y[1..]);
      }
    }
  }

  /** One step of the merge loop: with OUT written and heads x[i] and
   *  y[j] left, the smaller head is the next entry of the merge. */
  lemma MergedStep(x: seq<int>, y: seq<int>, i: int, j: int, out: seq<int>)
    requires 0 <= i < |x| && 0 <= j < |y|
    requires Merged(x, y) == out + Merged(x[i..], y[j..])
    ensures x[i] <= y[j] ==> Merged(x, y) == (out + [x[i]]) + Merged(x[i + 1..], y[j..])
    ensures x[i] > y[j] ==> Merged(x, y) == (out + [y[j]]) + Merged(x[i..], y[j + 1..])
  {
    var xs, ys := x[i..], y[j..];
    MergedCons(xs, ys);
    assert xs[0] == x[i] && xs[1..] == x[i + 1..];
    assert ys[0] == y[j] && ys[1..] == y[j + 1..];
    if x[i] <= y[j] {
      PushHead(Merged(x, y), out, x[i], Merged(xs, ys), Merged(x[i + 1..], ys));
    } else {
      PushHead(Merged(x, y), out, y[j], Merged(xs, ys), Merged(xs, y[j + 1..]));
    }
  }

  /** One unfolding of Merged on two non-empty inputs. */
  lemma MergedCons(xs: seq<int>, ys: seq<int>)
    requires xs != [] && ys != []
    ensures xs[0] <= ys[0] ==> Merged(xs, ys) == [xs[0]] + Merged(xs[1..], ys)
    ensures xs[0] > ys[0] ==> Merged(xs, ys) == [ys[0]] + Merged(xs, ys[1..])
  {
  }

  /** M is OUT followed by V and REST, regrouped. */
  lemma PushHead(m: seq<int>, out: seq<int>, v: int, mi: seq<int>, rest: seq<int>)
    requires m == out + mi && mi == [v] + rest
    ensures m == (out + [v]) + rest
  {
  }

  /** A fresh copy of a[from..from + len). */
  method CopyRange(a: array<int>, from: int, len: int) returns (b: array<int>)
    requires 0 <= from && 0 <= len && from + len <= a.Length
    ensures fresh(b) && b[..] == a[from..from + len]
  {
    b := new int[len];
    for i := 0 to len
      invariant b[..i] == a[from..from + i]
    {
      b[i] := a[from + i];
    }
  }

  /** Merges the sorted runs a[l..m] and a[m+1..r] into a[l..r]; nothing
   *  outside the range changes. */
  method Merge(a: array<int>, l: int, m: int, r: int)
    requires 0 <= l <= m + 1 <= r + 1 <= a.Length
    modifies a
    ensures a[..] == old(a[..])[..l] + Merged(old(a[..])[l..m + 1], old(a[..])[m + 1..r + 1]) + old(a[..])[r + 1..]
  {
    var len1 := m - l + 1;
    var len2 := r - m;
    var left := CopyRange(a, l, len1);
    var right := CopyRange(a, m + 1, len2);
    MergeFrom(a, left, right, l);
  }

  /** Merge after the copies: the merge of LEFT and RIGHT goes to
   *  a[l..l + |left| + |right|). */
  method MergeFrom(a: array<int>, left: array<int>, right: array<int>, l: int)
    requires 0 <= l && l + left.Length + right.Length <= a.Length
    requires a != left && a != right
    modifies a
    ensures a[..] == old(a[..])[..l] + Merged(left[..], right[..]) + old(a[..])[l + left.Length + right.Length..]
  {
    ghost var s, x, y := a[..], left[..], right[..];
    var i, j, k, out := MergeHeads(a, left, right, l);
    ghost var a1 := a[..];
    MergeTails(a, left, right, i, j, k);
    MergeTailsJoin(x, y, i, j);
    assert out + (x[i..] + y[j..]) == Merged(x, y);
    Assemble(s, a1, a[..], l, k, l + left.Length + right.Length, out, x[i..] + y[j..]);
  }

  /** The merge's writes (the main loop's output, then the tails) laid
   *  end to end over a[l..r). */
  lemma Assemble(s: seq<int>, a1: seq<int>, a2: seq<int>, l: int, k: int, r: int,
                 out: seq<int>, tail: seq<int>)
    requires 0 <= l <= k <= r <= |s| && |out| == k - l && |tail| == r - k
    requires a1 == s[..l] + out + s[k..]
    requires a2 == a1[..k] + tail + a1[r..]
    ensures a2 == s[..l] + (out + tail) + s[r..]
  {
    assert a1[..k] == s[..l] + out;
    assert a1[r..] == s[r..];
  }

  /** The two tail loops of merge: what is left of LEFT, then what is left
   *  of RIGHT, goes to a[k..). */
  method MergeTails(a: array<int>, left: array<int>, right: array<int>, i: int, j: int, k: int)
    requires 0 <= i <= left.Length && 0 <= j <= right.Length
    requires 0 <= k && k + left.Length - i + right.Length - j <= a.Length
    requires a != left && a != right
    modifies a
    ensures a[..] == old(a[..])[..k] + (left[i..] + right[j..]) + old(a[..])[k + left.Length - i + right.Length - j..]
  {
    ghost var s := a[..];
    var k2 := k + left.Length - i;
    CopyTail(a, left, i, k);
    ghost var a1 := a[..];
    CopyTail(a, right, j, k2);
    assert a1[..k2] == s[..k] + left[i..];
    assert a1[k2 + right.Length - j..] == s[k2 + right.Length - j..];
  }

  /** Once one input is used up, the rest of the merge is the rest of the
   *  other. */
  lemma MergeTailsJoin(x: seq<int>, y: seq<int>, i: int, j: int)
    requires 0 <= i <= |x| && 0 <= j <= |y| && (i == |x| || j == |y|)
    ensures Merged(x[i..], y[j..]) == x[i..] + y[j..]
  {
  }

  /** The main loop of merge: it writes the smaller head of LEFT or RIGHT
   *  into a[k] until one of them is used up. */
  method MergeHeads(a: array<int>, left: array<int>, right: array<int>, l: int)
      returns (i: int, j: int, k: int, ghost out: seq<int>)
    requires 0 <= l && l + left.Length + right.Length <= a.Length
    requires a != left && a != right
    modifies a
    ensures 0 <= i <= left.Length && 0 <= j <= right.Length && k == l + i + j
    ensures i == left.Length || j == right.Length
    ensures |out| == k - l && a[..] == old(a[..])[..l] + out + old(a[..])[k..]
    ensures Merged(left[..], right[..]) == out + Merged(left[i..], right[j..])
  {
    ghost var x, y, s := left[..], right[..], a[..];
    out := [];
    i, j, k := 0, 0, l;
    while i < left.Length && j < right.Length
      invariant 0 <= i <= left.Length && 0 <= j <= right.Length && k == l + i + j && |out| == k - l
      invariant a[..] == s[..l] + out + s[k..]
      invariant Merged(x, y) == out + Merged(x[i..], y[j..])
      decreases left.Length + right.Length - i - j
    {
      MergedStep(x, y, i, j, out);
      var v;
      if left[i] <= right[j] {
        v := left[i];
        i := i + 1;
      } else {
        v := right[j];
        j := j + 1;
      }
      ghost var before := a[..];
      a[k] := v;
      Overwrite(s, out, l, k, v);
      assert a[..] == before[k := v];
      out := out + [v];
      k := k + 1;
    }
  }

  /** A tail loop of merge: copies src[p..] to a[q..], leaving the rest of
   *  A alone. */
  method CopyTail(a: array<int>, src: array<int>, p: int, q: int)
    requires 0 <= p <= src.Length && 0 <= q && q + src.Length - p <= a.Length
    requires a != src
    modifies a
    ensures a[..] == old(a[..])[..q] + src[p..] + old(a[..])[q + src.Length - p..]
  {
    var n := src.Length - p;
    for t := 0 to n
      invariant a[..q] == old(a[..q]) && a[q + n..] == old(a[q + n..])
      invariant a[q..q + t] == src[p..p + t]
    {
      a[q + t] := src[p + t];
    }
    assert a[..] == a[..q] + a[q..q + n] + a[q + n..];
  }

  /** Merge sort on a sequence: sort the halves, the left one taking the
   *  middle entry when the length is odd, and merge them. */
  function MSort(s: seq<int>): (r: seq<int>)
    ensures |r| == |s|
    decreases |s|
  {
    if |s| <= 1 then s
    else
      var h := (|s| + 1) / 2;
      Merged(MSort(s[..h]), MSort(s[h..]))
  }

  /** One unfolding of MSort, at split point H. */
  lemma MSortSplits(t: seq<int>, h: int)
    requires |t| > 1 && h == (|t| + 1) / 2
    ensures MSort(t) == Merged(MSort(t[..h]), MSort(t[h..]))
  {
  }

  /** Merge sort sorts and permutes. */
  lemma MSortSorts(s: seq<int>)
    ensures Sorted(MSort(s)) && multiset(MSort(s)) == multiset(s)
  {
    MSortSorted(s);
    MSortPermutes(s);
  }

  lemma {:induction false} MSortSorted(s: seq<int>)
    ensures Sorted(MSort(s))
    decreases |s|
  {
    if |s| > 1 {
      var h := (|s| + 1) / 2;
      MSortSorted(s[..h]);
      MSortSorted(s[h..]);
      MSortSplits(s, h);
      MergedSorted(MSort(s[..h]), MSort(s[h..]));
    }
  }

  lemma {:induction false} MSortPermutes(s: seq<int>)
    ensures multiset(MSort(s)) == multiset(s)
    decreases |s|
  {
    if |s| > 1 {
      var h := (|s| + 1) / 2;
      MSortPermutes(s[..h]);
      MSortPermutes(s[h..]);
      MSortPermStep(s, h);
    }
  }

  /** The inductive step of MSortPermutes: permuting halves permute the
   *  whole. */
  lemma MSortPermStep(s: seq<int>, h: int)
    requires |s| > 1 && h == (|s| + 1) / 2
    requires multiset(MSort(s[..h])) == multiset(s[..h]) && multiset(MSort(s[h..])) == multiset(s[h..])
    ensures multiset(MSort(s)) == multiset(s)
  {
    MSortSplits(s, h);
    MergedPermutes(MSort(s[..h]), MSort(s[h..]));
    HalvesPermute(s, s[..h], s[h..], MSort(s[..h]), MSort(s[h..]), MSort(s));
  }

  /** Permuting each half of S and permuting the two results together
   *  permutes S. */
  lemma HalvesPermute(s: seq<int>, a: seq<int>, b: seq<int>, x: seq<int>, y: seq<int>, m: seq<int>)
    requires s == a + b && multiset(x) == multiset(a) && multiset(y) == multiset(b)
    requires multiset(m) == multiset(x) + multiset(y)
    ensures multiset(m) == multiset(s)
  {
  }

  /** S with S[l..r] (both ends included) merge-sorted when l < r, and S
   *  itself otherwise. */
  function RangeSorted(s: seq<int>, l: int, r: int): (t: seq<int>)
    requires l >= r || 0 <= l <= r < |s|
    ensures |t| == |s|
  {
    if l < r then s[..l] + MSort(s[l..r + 1]) + s[r + 1..] else s
  }

  /** A one-entry range is already sorted. */
  lemma RangeSortedSingle(s: seq<int>, l: int, r: int)
    requires 0 <= l <= r < |s|
    ensures RangeSorted(s, l, r) == s[..l] + MSort(s[l..r + 1]) + s[r + 1..]
  {
    if l == r {
      assert s == s[..l] + s[l..r + 1] + s[r + 1..];
    }
  }

  /** Sorts a[l..r] (both ends included) by sorting its halves in place
   *  and merging them; does nothing unless l < r. */
  method SortRange(a: array<int>, l: int, r: int)
    requires l >= r || 0 <= l <= r < a.Length
    modifies a
    ensures a[..] == RangeSorted(old(a[..]), l, r)
    decreases r - l
  {
    if l < r {
      var mid := (l + r) / 2;
      ghost var s0 := a[..];
      SortRange(a, l, mid);
      ghost var s1 := a[..];
      SortRange(a, mid + 1, r);
      ghost var s2 := a[..];
      Merge(a, l, mid, r);
      SortRangeSteps(s0, s1, s2, a[..], l, mid, r);
    }
  }

  /** The three steps of SortRange, on the array's contents: sorting each
   *  half and merging them sorts S0[l..r]. */
  lemma SortRangeSteps(s0: seq<int>, s1: seq<int>, s2: seq<int>, s3: seq<int>, l: int, mid: int, r: int)
    requires 0 <= l < r < |s0| && mid == (l + r) / 2
    requires s1 == RangeSorted(s0, l, mid)
    requires s2 == RangeSorted(s1, mid + 1, r)
    requires s3 == s2[..l] + Merged(s2[l..mid + 1], s2[mid + 1..r + 1]) + s2[r + 1..]
    ensures s3 == RangeSorted(s0, l, r)
  {
    HalvesSorted(s0, s1, s2, l, mid, r);
    HalvesMerged(s2, s3, s0[..l], MSort(s0[l..mid + 1]), MSort(s0[mid + 1..r + 1]), s0[r + 1..], l, mid, r);
    MSortOfRange(s0, l, mid, r);
  }

  /** The first two steps of SortRange, on the array's contents: the two
   *  halves of S0[l..r] sorted in turn. */
  lemma HalvesSorted(s0: seq<int>, s1: seq<int>, s2: seq<int>, l: int, mid: int, r: int)
    requires 0 <= l <= mid < r < |s0|
    requires s1 == RangeSorted(s0, l, mid)
    requires s2 == RangeSorted(s1, mid + 1, r)
    ensures s2 == s0[..l] + MSort(s0[l..mid + 1]) + MSort(s0[mid + 1..r + 1]) + s0[r + 1..]
  {
    RangeSortedSingle(s0, l, mid);
    RangeSortedSingle(s1, mid + 1, r);
    assert s1[mid + 1..] == s0[mid + 1..];
    assert s1[mid + 1..r + 1] == s0[mid + 1..r + 1];
    assert s1[..mid + 1] == s0[..l] + MSort(s0[l..mid + 1]);
    assert s1[r + 1..] == s0[r + 1..];
  }

  /** The last step of SortRange: merging the two sorted halves X and Y
   *  in place. */
  lemma HalvesMerged(s2: seq<int>, s3: seq<int>, pre: seq<int>, x: seq<int>, y: seq<int>, post: seq<int>,
                     l: int, mid: int, r: int)
    requires s2 == pre + x + y + post
    requires |pre| == l && |x| == mid + 1 - l && |y| == r - mid
    requires s3 == s2[..l] + Merged(s2[l..mid + 1], s2[mid + 1..r + 1]) + s2[r + 1..]
    ensures s3 == pre + Merged(x, y) + post
  {
    assert s2[..l] == pre;
    assert s2[l..mid + 1] == x;
    assert s2[mid + 1..r + 1] == y;
    assert s2[r + 1..] == post;
  }

  /** The merge of the sorted halves of S[l..r] is its merge sort. */
  lemma MSortOfRange(s: seq<int>, l: int, mid: int, r: int)
    requires 0 <= l < r < |s| && mid == (l + r) / 2
    ensures Merged(MSort(s[l..mid + 1]), MSort(s[mid + 1..r + 1])) == MSort(s[l..r + 1])
  {
    var t := s[l..r + 1];
    var h := mid + 1 - l;
    assert t[..h] == s[l..mid + 1] && t[h..] == s[mid + 1..r + 1];
    MSortSplits(t, h);
  }

  /** Sorting the range 0..k-1 of S sorts its first K entries and leaves
   *  the rest. */
  lemma PrefixRangeSorted(s: seq<int>, k: int)
    requires 0 <= k <= |s|
    ensures RangeSorted(s, 0, k - 1) == MSort(s[..k]) + s[k..]
  {
    if k > 0 {
      RangeSortedSingle(s, 0, k - 1);
      assert s[..0] == [] && s[0..k] == s[..k];
    } else {
      assert s[..0] == [] && s[0..] == s;
    }
  }

  /** MergeSort.sort(array, k): sorts a[0..k). */
  method Sort(a: array<int>, k: int)
    requires 0 <= k <= a.Length
    modifies a
    ensures a[..] == MSort(old(a[..k])) + old(a[k..])
    ensures Sorted(a[..k]) && multiset(a[..k]) == multiset(old(a[..k]))
  {
    ghost var s := a[..];
    assert s[..k] == old(a[..k]) && s[k..] == old(a[k..]);
    SortRange(a, 0, k - 1);
    PrefixRangeSorted(s, k);
    MSortSorts(s[..k]);
    assert a[..k] == MSort(s[..k]);
  }
}
