/** Sequences of sequences laid end to end: the contents of an array of
 *  buckets or of a list of runs. */
module Seqs {

  /** The pieces of G in order, joined. */
  function Flatten<T>(g: seq<seq<T>>): (r: seq<T>)
    ensures |g| == 1 ==> r == g[0]
  {
    if g == [] then [] else g[0] + Flatten(g[1..])
  }

  /** An element is in the join exactly when it is in one of the pieces. */
  lemma {:induction false} FlattenMembers<T>(g: seq<seq<T>>, x: T)
    ensures x in Flatten(g) <==> exists i :: 0 <= i < |g| && x in g[i]
  {
    if g != [] {
      FlattenMembers(g[1..], x);
      if x in Flatten(g[1..]) {
        var i :| 0 <= i < |g[1..]| && x in g[1..][i];
        assert x in g[i + 1];
      }
      if exists i :: 0 <= i < |g| && x in g[i] {
        var i :| 0 <= i < |g| && x in g[i];
        if i > 0 {
          assert x in g[1..][i - 1];
        }
      }
    }
  }

  lemma FlattenStep<T>(g: seq<seq<T>>, d: int)
    requires 0 <= d < |g|
    ensures Flatten(g[d..]) == g[d] + Flatten(g[d + 1..])
  {
    assert g[d..][1..] == g[d + 1..];
  }

  /** Adding a piece at the end adds its contents at the end. */
  lemma {:induction false} FlattenAppend<T>(g: seq<seq<T>>, x: seq<T>)
    ensures Flatten(g + [x]) == Flatten(g) + x
  {
    if g != [] {
      assert (g + [x])[1..] == g[1..] + [x];
      FlattenAppend(g[1..], x);
    } else {
      assert g + [x] == [x];
    }
  }

  /** Pieces that are all empty join to nothing. */
  lemma {:induction false} FlattenAllEmpty<T>(g: seq<seq<T>>)
    requires forall i :: 0 <= i < |g| ==> g[i] == []
    ensures Flatten(g) == []
  {
    if g != [] {
      FlattenAllEmpty(g[1..]);
    }
  }

  /** Replacing piece I by X replaces its elements by those of X. */
  lemma {:induction false} FlattenUpdate<T>(g: seq<seq<T>>, i: int, x: seq<T>)
    requires 0 <= i < |g|
    ensures multiset(Flatten(g[i := x])) + multiset(g[i]) == multiset(Flatten(g)) + multiset(x)
  {
    var h := g[i := x];
    assert multiset(Flatten(g)) == multiset(g[0]) + multiset(Flatten(g[1..]));
    assert multiset(Flatten(h)) == multiset(h[0]) + multiset(Flatten(h[1..]));
    if i == 0 {
      assert h[1..] == g[1..];
    } else {
      assert h[1..] == g[1..][i - 1 := x] && h[0] == g[0] && g[1..][i - 1] == g[i];
      FlattenUpdate(g[1..], i - 1, x);
      var a, p, q := multiset(g[0]), multiset(Flatten(h[1..])), multiset(Flatten(g[1..]));
      calc {
        multiset(Flatten(h)) + multiset(g[i]);
        (a + p) + multiset(g[i]);
        a + (p + multiset(g[i]));
        a + (q + multiset(x));
        (a + q) + multiset(x);
        multiset(Flatten(g)) + multiset(x);
      }
    }
  }
}
