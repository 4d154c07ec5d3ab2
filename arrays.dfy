/** Array utilities: catenating two arrays and removing a slice. Both
 *  return fresh arrays and leave their arguments untouched. */
module Arrays {

  /** Arrays.catenate: a fresh array holding A's elements followed by B's. */
  method Catenate(a: array<int>, b: array<int>) returns (answer: array<int>)
    ensures fresh(answer) && answer.Length == a.Length + b.Length
    ensures answer[..] == a[..] + b[..]
  {
    answer := new int[a.Length + b.Length];
    for i := 0 to a.Length + b.Length
      invariant forall j :: 0 <= j < i ==> answer[j] == (a[..] + b[..])[j]
    {
      if i < a.Length {
        answer[i] := a[i];
      } else {
        answer[i] := b[i - a.Length];
      }
    }
  }

  /** Arrays.remove: A without the LEN items from index START on, or null
   *  when that slice runs past the end of A. */
  method Remove(a: array<int>, start: int, len: int) returns (result: array?<int>)
    requires 0 <= start && 0 <= len
    ensures result == null <==> start + len > a.Length
    ensures result != null ==> fresh(result) && result.Length == a.Length - len
    ensures result != null ==> result[..] == a[..start] + a[start + len..]
  {
    if start + len > a.Length {
      return null;
    }
    var r := new int[a.Length - len];
    for i := 0 to start
      invariant forall u :: 0 <= u < i ==> r[u] == a[u]
    {
      r[i] := a[i];
    }
    for j := len + start to a.Length
      invariant forall u :: 0 <= u < start ==> r[u] == a[u]
      invariant forall u :: len + start <= u < j ==> r[u - len] == a[u]
    {
      r[j - len] := a[j];
    }
    assert r[..start] == a[..start];
    assert r[start..] == a[start + len..];
    assert r[..] == r[..start] + r[start..];
    result := r;
  }

  /** The cases exercised by the catenate tests. */
  method CatenateExamples() {
    var e := new int[0];
    var one := new int[] [1];
    var two := new int[] [2, 3];
    var three := new int[] [1, 2, 3];
    var c1 := Catenate(e, e);
    assert c1[..] == [];
    var c2 := Catenate(e, three);
    assert c2[..] == [1, 2, 3];
    var c3 := Catenate(one, two);
    assert c3[..] == [1, 2, 3];
  }

  /** The cases exercised by the remove tests. */
  method RemoveExamples() {
    var t := new int[] [1, 2, 3, 4, 5];
    assert t[..] == [1, 2, 3, 4, 5];
    var r1 := Remove(t, 3, 2);
    assert r1[..] == [1, 2, 3];
    var r2 := Remove(t, 0, 5);
    assert r2[..] == [];
    var r3 := Remove(t, 0, 3);
    assert r3[..] == [4, 5];
    var r4 := Remove(t, 4, 2);
    assert r4 == null;
  }
}
