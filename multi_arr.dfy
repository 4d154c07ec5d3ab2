/** Scans over a ragged two-dimensional int array. */
module MultiArr {

  /** The sum of the entries of S. */
  function Sum(s: seq<int>): int
  {
    if s == [] then 0 else s[0] + Sum(s[1..])
  }

  /** Adding entries front to back, as the row loop does, gives the sum. */
  lemma {:induction false} SumAppend(s: seq<int>, x: int)
    ensures Sum(s + [x]) == Sum(s) + x
  {
    if s != [] {
      assert (s + [x])[1..] == s[1..] + [x];
      SumAppend(s[1..], x);
    }
  }

  /** MultiArr.maxValue: the largest entry of ARR, or -1000 when every
   *  entry is smaller (in particular when ARR has no entries). */
  method MaxValue(arr: array<array<int>>) returns (result: int)
    ensures result >= -1000
    ensures forall x, y :: 0 <= x < arr.Length && 0 <= y < arr[x].Length ==> arr[x][y] <= result
    ensures result == -1000 || exists x, y :: 0 <= x < arr.Length && 0 <= y < arr[x].Length && arr[x][y] == result
  {
    result := -1000;
    for x := 0 to arr.Length
      invariant result >= -1000
      invariant forall u, v :: 0 <= u < x && 0 <= v < arr[u].Length ==> arr[u][v] <= result
      invariant result == -1000 || exists u, v :: 0 <= u < arr.Length && 0 <= v < arr[u].Length && arr[u][v] == result
    {
      for y := 0 to arr[x].Length
        invariant result >= -1000
        invariant forall u, v :: 0 <= u < x && 0 <= v < arr[u].Length ==> arr[u][v] <= result
        invariant forall v :: 0 <= v < y ==> arr[x][v] <= result
        invariant result == -1000 || exists u, v :: 0 <= u < arr.Length && 0 <= v < arr[u].Length && arr[u][v] == result
      {
        if arr[x][y] > result {
          result := arr[x][y];
        }
      }
    }
  }

  /** MultiArr.allRowSums: entry x of the fresh result is the sum of row x. */
  method AllRowSums(arr: array<array<int>>) returns (result: array<int>)
    ensures fresh(result) && result.Length == arr.Length
    ensures forall x :: 0 <= x < arr.Length ==> result[x] == Sum(arr[x][..])
  {
    result := new int[arr.Length];
    for x := 0 to arr.Length
      invariant forall u :: 0 <= u < arr.Length ==> arr[u] != result
      invariant forall u :: 0 <= u < x ==> result[u] == Sum(arr[u][..])
    {
      var sum := 0;
      for y := 0 to arr[x].Length
        invariant sum == Sum(arr[x][..y])
        invariant forall u :: 0 <= u < x ==> result[u] == Sum(arr[u][..])
      {
        assert arr[x][..y + 1] == arr[x][..y] + [arr[x][y]];
        SumAppend(arr[x][..y], arr[x][y]);
        sum := sum + arr[x][y];
      }
      assert arr[x][..arr[x].Length] == arr[x][..];
      result[x] := sum;
    }
  }

  /** The first ragged array of the maxValue and allRowSums tests. */
  method Test1() returns (arr: array<array<int>>)
    ensures fresh(arr) && arr.Length == 4
    ensures arr[0][..] == [1, 4, 5] && arr[1][..] == [2, 3, 7]
    ensures arr[2][..] == [9, 8, 5, 0] && arr[3][..] == [10, 13]
  {
    var a0 := new int[] [1, 4, 5];
    var a1 := new int[] [2, 3, 7];
    var a2 := new int[] [9, 8, 5, 0];
    var a3 := new int[] [10, 13];
    arr := new array<int>[] [a0, a1, a2, a3];
  }

  /** The second ragged array of the tests. */
  method Test2() returns (arr: array<array<int>>)
    ensures fresh(arr) && arr.Length == 3
    ensures arr[0][..] == [-1, -10, 0] && arr[1][..] == [6] && arr[2][..] == [-5, -4]
  {
    var b0 := new int[] [-1, -10, 0];
    var b1 := new int[] [6];
    var b2 := new int[] [-5, -4];
    arr := new array<int>[] [b0, b1, b2];
  }

  /** maxValue gives 13 and 6 on the two test arrays. */
  method MaxValueExamples() {
    var t1 := Test1();
    var m1 := MaxValue(t1);
    assert t1[3][1] == 13;
    assert m1 == 13;
    var t2 := Test2();
    var m2 := MaxValue(t2);
    assert t2[1][0] == 6;
    assert m2 == 6;
  }

  /** allRowSums gives {10, 12, 22, 23} and {-11, 6, -9} on them. */
  method RowSumsExamples() {
    var t1 := Test1();
    var s1 := AllRowSums(t1);
    assert Sum([1, 4, 5]) == 10 && Sum([2, 3, 7]) == 12 && Sum([9, 8, 5, 0]) == 22 && Sum([10, 13]) == 23;
    assert s1[..] == [10, 12, 22, 23];
    var t2 := Test2();
    var s2 := AllRowSums(t2);
    assert Sum([-1, -10, 0]) == -11 && Sum([6]) == 6 && Sum([-5, -4]) == -9;
    assert s2[..] == [-11, 6, -9];
  }
}
