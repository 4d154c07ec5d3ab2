/** In-place sorts of the prefix a[0..k) of an int array: insertion,
 *  selection, merge and LSD radix sort, with the exchange helper they share.
 *
 *  Each method is specified either by a function on a[..] or directly by
 *  sortedness and a multiset (permutation) equation; the lemmas prove the
 *  functions sort and permute. */
module Sorting {

  /** Largest Java int. */
  const INT_MAX := 0x7fff_ffff

  /** A Java int. */
  type Int32 = x: int | -0x8000_0000 <= x <= 0x7fff_ffff

  predicate Sorted(s: seq<int>) {
    forall i, j :: 0 <= i < j < |s| ==> s[i] <= s[j]
  }

  // ---------------------------------------------------------------------
  // swap

  /** S with the entries at I and J exchanged. */
  function Swapped<T>(s: seq<T>, i: int, j: int): (r: seq<T>)
    requires 0 <= i < |s| && 0 <= j < |s|
    ensures |r| == |s|
  {
    s[i := s[j]][j := s[i]]
  }

  /** An exchange is a permutation that moves only the two entries. */
  lemma SwappedPermutes<T>(s: seq<T>, i: int, j: int)
    requires 0 <= i < |s| && 0 <= j < |s|
    ensures multiset(Swapped(s, i, j)) == multiset(s)
    ensures Swapped(s, i, j)[i] == s[j] && Swapped(s, i, j)[j] == s[i]
    ensures forall t :: 0 <= t < |s| && t != i && t != j ==> Swapped(s, i, j)[t] == s[t]
  {
  }

  /** Exchanges A[I] and A[J]. */
  method Swap<T>(a: array<T>, i: int, j: int)
    requires 0 <= i < a.Length && 0 <= j < a.Length
    modifies a
    ensures a[..] == Swapped(old(a[..]), i, j)
    ensures multiset(a[..]) == multiset(old(a[..]))
  {
    var swap := a[i];
    a[i] := a[j];
    a[j] := swap;
    SwappedPermutes(old(a[..]), i, j);
  }

  /** Writing V just past the written part OUT of S[l..) extends OUT. */
  lemma Overwrite(s: seq<int>, out: seq<int>, l: int, k: int, v: int)
    requires 0 <= l && k == l + |out| && k < |s|
    ensures (s[..l] + out + s[k..])[k := v] == s[..l] + (out + [v]) + s[k + 1..]
  {
  }

  // ---------------------------------------------------------------------
  // Insertion sort

  /** X inserted into S after the trailing entries greater than it are
   *  passed over from the right: the position insertion sort's shifting
   *  loop stops at. */
  function InsertSorted(s: seq<int>, x: int): (r: seq<int>)
    decreases |s|
  {
    if s == [] || s[|s| - 1] <= x then s + [x]
    else InsertSorted(s[..|s| - 1], x) + [s[|s| - 1]]
  }

  /** Insertion adds exactly X. */
  lemma {:induction false} InsertSortedPermutes(s: seq<int>, x: int)
    ensures multiset(InsertSorted(s, x)) == multiset(s) + multiset{x}
    decreases |s|
  {
    if s != [] && s[|s| - 1] > x {
      var n := |s| - 1;
      assert s == s[..n] + [s[n]];
      InsertSortedPermutes(s[..n], x);
    }
  }

  /** Insertion into a sorted sequence keeps it sorted and adds exactly X. */
  lemma {:induction false} InsertSortedSorts(s: seq<int>, x: int)
    ensures multiset(InsertSorted(s, x)) == multiset(s) + multiset{x}
    ensures Sorted(s) ==> Sorted(InsertSorted(s, x))
    decreases |s|
  {
    InsertSortedPermutes(s, x);
    if s != [] && s[|s| - 1] > x && Sorted(s) {
      var n := |s| - 1;
      var p := s[..n];
      assert Sorted(p);
      InsertSortedSorts(p, x);
      var r := InsertSorted(p, x);
      InsertSortedPermutes(p, x);
      forall t | 0 <= t < |r| ensures r[t] <= s[n] {
        assert r[t] in multiset(r);
        if r[t] != x {
          assert r[t] in multiset(p);
          assert r[t] in p;
        }
      }
      assert InsertSorted(s, x) == r + [s[n]];
      SortedAppend(r, s[n]);
    }
  }

  /** Appending an entry no smaller than any other keeps a sequence sorted. */
  lemma SortedAppend(r: seq<int>, v: int)
    requires Sorted(r) && forall t :: 0 <= t < |r| ==> r[t] <= v
    ensures Sorted(r + [v])
  {
  }

  /** Where the scan stops: when every entry from P on exceeds X and the
   *  one before P does not, X lands at P. */
  lemma {:induction false} InsertSortedAt(s: seq<int>, x: int, p: int)
    requires 0 <= p <= |s|
    requires forall t :: p <= t < |s| ==> s[t] > x
    requires p == 0 || s[p - 1] <= x
    ensures InsertSorted(s, x) == s[..p] + [x] + s[p..]
    decreases |s|
  {
    if p < |s| {
      var n := |s| - 1;
      InsertSortedAt(s[..n], x, p);
      assert s[..n][..p] == s[..p];
      assert s[p..] == s[..n][p..] + [s[n]];
    } else {
      assert s[..p] == s;
    }
  }

  /** The result of insertion sort: each entry in turn inserted into the
   *  sorted prefix before it. */
  function InsertionSorted(s: seq<int>): seq<int>
    decreases |s|
  {
    if s == [] then [] else InsertSorted(InsertionSorted(s[..|s| - 1]), s[|s| - 1])
  }

  lemma {:induction false} InsertionSortedSorts(s: seq<int>)
    ensures Sorted(InsertionSorted(s)) && multiset(InsertionSorted(s)) == multiset(s)
    decreases |s|
  {
    if s != [] {
      var n := |s| - 1;
      assert s == s[..n] + [s[n]];
      InsertionSortedSorts(s[..n]);
      InsertSortedSorts(InsertionSorted(s[..n]), s[n]);
    }
  }

  /** Insertion-sorts a[0..k), leaving a[k..] alone. */
  method InsertionSort(a: array<int>, k: nat)
    requires k <= a.Length
    modifies a
    ensures a[..k] == InsertionSorted(old(a[..k])) && a[k..] == old(a[k..])
    ensures Sorted(a[..k]) && multiset(a[..k]) == multiset(old(a[..k]))
  {
    var i := 1;
    while i < k
      invariant 1 <= i && (k == 0 || i <= k)
      invariant k > 0 ==> a[..i] == InsertionSorted(old(a[..i])) && a[i..] == old(a[i..])
      invariant k == 0 ==> a[..] == old(a[..])
    {
      assert old(a[..i + 1])[..i] == old(a[..i]);
      InsertAt(a, i);
      i := i + 1;
    }
    InsertionSortedSorts(old(a[..k]));
  }

  /** Inserts a[i] into the prefix a[0..i) by shifting the greater entries
   *  one place right. */
  method InsertAt(a: array<int>, i: int)
    requires 0 < i < a.Length
    modifies a
    ensures a[..i + 1] == InsertSorted(old(a[..i]), old(a[i])) && a[i + 1..] == old(a[i + 1..])
  {
    ghost var s := a[..i];
    var ele := a[i];
    var j := ShiftGreater(a, i, ele);
    a[j + 1] := ele;
    InsertSortedAt(s, ele, j + 1);
    assert a[..i + 1] == s[..j + 1] + [ele] + s[j + 1..];
    assert a[i + 1..] == old(a[i + 1..]);
  }

  /** The shifting loop of insertion sort: moves the entries of a[0..i)
   *  greater than ELE one place right, from the right, and stops at the
   *  first entry that is not greater; J is that entry's index, or -1. */
  method ShiftGreater(a: array<int>, i: int, ele: int) returns (j: int)
    requires 0 < i < a.Length
    modifies a
    ensures -1 <= j < i && (j >= 0 ==> a[j] <= ele)
    ensures forall t :: 0 <= t <= j ==> a[t] == old(a[t])
    ensures forall t :: j + 2 <= t <= i ==> a[t] == old(a[t - 1])
    ensures forall t :: j + 1 <= t < i ==> old(a[t]) > ele
    ensures forall t :: i < t < a.Length ==> a[t] == old(a[t])
  {
    j := i - 1;
    while j >= 0 && a[j] > ele
      invariant -1 <= j < i
      invariant forall t :: 0 <= t <= j ==> a[t] == old(a[t])
      invariant forall t :: j + 2 <= t <= i ==> a[t] == old(a[t - 1])
      invariant forall t :: j + 1 <= t < i ==> old(a[t]) > ele
      invariant forall t :: i < t < a.Length ==> a[t] == old(a[t])
    {
      a[j + 1] := a[j];
      j := j - 1;
    }
  }

  // ---------------------------------------------------------------------
  // Selection sort

  /** The index SelectionSort.min settles on scanning S[t..k) from T, with
   *  running minimum M at index IDX: a strictly smaller entry replaces
   *  both. */
  function MinScan(s: seq<int>, k: int, t: int, m: int, idx: int): int
    requires 0 <= t && k <= |s|
    decreases k - t
  {
    if t >= k then idx
    else if s[t] < m then MinScan(s, k, t + 1, s[t], t)
    else MinScan(s, k, t + 1, m, idx)
  }

  /** The scan ends on the first minimum below M, or on IDX if nothing in
   *  S[t..k) is below M. */
  lemma {:induction false} MinScanFinds(s: seq<int>, k: int, t: int, m: int, idx: int)
    requires 0 <= t <= k <= |s|
    ensures var r := MinScan(s, k, t, m, idx);
            if exists u :: t <= u < k && s[u] < m
            then t <= r < k && s[r] < m && forall u :: t <= u < k ==> s[r] <= s[u]
            else r == idx
    decreases k - t
  {
    if t < k {
      if s[t] < m {
        MinScanFinds(s, k, t + 1, s[t], t);
      } else {
        MinScanFinds(s, k, t + 1, m, idx);
      }
    }
  }

  /** min as written starts from index 0: it returns an index of a minimum
   *  of S[j..k) when some entry there is below INT_MAX, and 0 otherwise,
   *  which lies outside [j, k) whenever j > 0. */
  lemma MinAsWritten(s: seq<int>, k: int, j: int)
    requires 0 <= j <= k <= |s|
    ensures var r := MinScan(s, k, j, INT_MAX, 0);
            if exists u :: j <= u < k && s[u] < INT_MAX
            then j <= r < k && forall u :: j <= u < k ==> s[r] <= s[u]
            else r == 0
  {
    MinScanFinds(s, k, j, INT_MAX, 0);
  }

  /** Selection sort as written, on a sequence: pass I swaps entry I with
   *  the index min returns. */
  function SelectionAsWritten(s: seq<int>, k: int, i: int): seq<int>
    requires 0 <= i <= k <= |s|
    decreases k - i
  {
    if i == k then s
    else
      var m := MinScan(s, k, i, INT_MAX, 0);
      MinScanFinds(s, k, i, INT_MAX, 0);
      SelectionAsWritten(Swapped(s, i, m), k, i + 1)
  }

  /** As written, [1, INT_MAX] sorts to [INT_MAX, 1]: the second pass finds
   *  nothing below INT_MAX and swaps entry 1 with entry 0. */
  lemma SelectionAsWrittenUnsorts()
    ensures SelectionAsWritten([1, INT_MAX], 2, 0) == [INT_MAX, 1]
    ensures !Sorted(SelectionAsWritten([1, INT_MAX], 2, 0))
  {
    var s := [1, INT_MAX];
    assert MinScan(s, 2, 0, INT_MAX, 0) == 0;
    assert Swapped(s, 0, 0) == s;
    assert MinScan(s, 2, 1, INT_MAX, 0) == 0;
    assert Swapped(s, 1, 0) == [INT_MAX, 1];
    var r := SelectionAsWritten(s, 2, 0);
    assert r[0] > r[1];
  }

  /** The index of a minimum of a[j..k), scanning from j with the running
   *  minimum starting at INT_MAX and the index at j. */
  method Min(a: array<Int32>, k: int, j: int) returns (index: int)
    requires 0 <= j < k <= a.Length
    ensures j <= index < k && forall u :: j <= u < k ==> a[index] <= a[u]
  {
    ghost var s := a[..];
    var min := INT_MAX;
    index := j;
    for t := j to k
      invariant MinScan(s, k, t, min, index) == MinScan(s, k, j, INT_MAX, j)
    {
      if a[t] < min {
        min := a[t];
        index := t;
      }
    }
    MinScanFinds(s, k, j, INT_MAX, j);
    if !exists u :: j <= u < k && s[u] < INT_MAX {
      assert forall u :: j <= u < k ==> s[u] == INT_MAX;
    }
  }

  /** S[..i] is sorted and no entry of it exceeds an entry of S[i..k):
   *  the state selection sort keeps after I passes. */
  predicate Selected(s: seq<int>, i: int, k: int)
    requires 0 <= i <= k <= |s|
  {
    Sorted(s[..i]) && forall x, y :: 0 <= x < i <= y < k ==> s[x] <= s[y]
  }

  /** Selection-sorts a[0..k): pass i swaps a minimum of a[i..k) into
   *  place. */
  method SelectionSort(a: array<Int32>, k: int)
    requires 0 <= k <= a.Length
    modifies a
    ensures Sorted(a[..k]) && multiset(a[..k]) == multiset(old(a[..k])) && a[k..] == old(a[k..])
  {
    for i := 0 to k
      invariant Selected(a[..], i, k)
      invariant multiset(a[..k]) == multiset(old(a[..k])) && a[k..] == old(a[k..])
    {
      var minIndex := Min(a, k, i);
      SelectStep(a, k, i, minIndex);
    }
    assert a[..][..k] == a[..k];
  }

  /** One pass of selection sort: the exchange of a[i] with the minimum at
   *  M extends the sorted prefix by one. */
  method SelectStep(a: array<Int32>, k: int, i: int, m: int)
    requires 0 <= i <= m < k <= a.Length
    requires forall u :: i <= u < k ==> a[m] <= a[u]
    requires Selected(a[..], i, k)
    modifies a
    ensures Selected(a[..], i + 1, k)
    ensures multiset(a[..k]) == multiset(old(a[..k])) && a[k..] == old(a[k..])
  {
    ghost var s := a[..];
    Swap(a, i, m);
    SwappedPermutes(s, i, m);
    SwapExtendsPrefix(s, k, i, m);
    assert a[..k] == a[..][..k] && a[k..] == a[..][k..];
  }

  /** Exchanging entry I with a minimum M of S[i..k) extends a sorted
   *  prefix bounded by the rest by one, permuting S[..k]. */
  lemma SwapExtendsPrefix(s: seq<int>, k: int, i: int, m: int)
    requires 0 <= i <= m < k <= |s|
    requires forall u :: i <= u < k ==> s[m] <= s[u]
    requires Selected(s, i, k)
    ensures var r := Swapped(s, i, m);
            Selected(r, i + 1, k) && multiset(r[..k]) == multiset(s[..k]) && r[k..] == s[k..]
  {
    var r := Swapped(s, i, m);
    assert r[..k] == Swapped(s[..k], i, m);
    SwappedPermutes(s[..k], i, m);
    forall x, y | 0 <= x < y < i + 1
      ensures r[x] <= r[y]
    {
      if y < i {
        assert s[..i][x] <= s[..i][y];
      }
    }
  }
}
