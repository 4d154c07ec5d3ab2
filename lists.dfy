/** Splitting an int list into its natural runs: the maximal strictly
 *  ascending stretches, in order. The linked IntList is modelled by the
 *  sequence of its heads, a node by its position, and a cut after node i
 *  by ending a run at i. */
module Lists {
  import opened Seqs

  predicate Ascending(s: seq<int>)
  {
    forall i :: 0 <= i < |s| - 1 ==> s[i] < s[i + 1]
  }

  function Last(r: seq<int>): int
    requires r != []
  {
    r[|r| - 1]
  }

  /** RUNS are the natural runs of S: non-empty strictly ascending lists
   *  that join up to S, where each next run starts at a head no greater
   *  than the last head of the run before it. */
  predicate RunsOf(runs: seq<seq<int>>, s: seq<int>)
  {
    Flatten(runs) == s &&
    (forall k :: 0 <= k < |runs| ==> runs[k] != [] && Ascending(runs[k])) &&
    (forall k :: 0 <= k < |runs| - 1 ==> Last(runs[k]) >= runs[k + 1][0])
  }

  /** The natural runs of S are determined by S. */
  lemma {:induction false} RunsUnique(r1: seq<seq<int>>, r2: seq<seq<int>>, s: seq<int>)
    requires RunsOf(r1, s) && RunsOf(r2, s)
    ensures r1 == r2
    decreases |s|
  {
    if r1 != [] && r2 != [] {
      var p := |r1[0]|;
      FirstRunShortest(r1, r2, s);
      FirstRunShortest(r2, r1, s);
      assert s == r1[0] + Flatten(r1[1..]) && s == r2[0] + Flatten(r2[1..]);
      assert r1[0] == s[..p] == r2[0];
      RunsTail(r1, s);
      RunsTail(r2, s);
      RunsUnique(r1[1..], r2[1..], s[p..]);
      assert r1 == [r1[0]] + r1[1..] && r2 == [r2[0]] + r2[1..];
    }
  }

  /** No ascending run of S that starts it is longer than the first
   *  natural run. */
  lemma FirstRunShortest(r1: seq<seq<int>>, r2: seq<seq<int>>, s: seq<int>)
    requires RunsOf(r1, s) && RunsOf(r2, s) && r1 != [] && r2 != []
    ensures |r1[0]| <= |r2[0]|
  {
    var p, q := |r1[0]|, |r2[0]|;
    if q < p {
      assert s == r1[0] + Flatten(r1[1..]) && s == r2[0] + Flatten(r2[1..]);
      FirstRunEnds(r2, s);
    }
  }

  /** When another run follows the first, S descends where the first run
   *  ends. */
  lemma FirstRunEnds(r: seq<seq<int>>, s: seq<int>)
    requires RunsOf(r, s) && r != []
    ensures |r[0]| < |s| ==> s[|r[0]| - 1] >= s[|r[0]|]
  {
    var p := |r[0]|;
    assert s == r[0] + Flatten(r[1..]);
    if p < |s| {
      assert |r| > 1;
      assert Flatten(r[1..]) == r[1] + Flatten(r[2..]) by {
        assert r[1..][1..] == r[2..];
      }
      assert s[p] == r[1][0];
    }
  }

  /** The runs after the first are the natural runs of the rest of S. */
  lemma RunsTail(r: seq<seq<int>>, s: seq<int>)
    requires RunsOf(r, s) && r != []
    ensures |r[0]| <= |s| && RunsOf(r[1..], s[|r[0]|..])
  {
    assert s == r[0] + Flatten(r[1..]);
    assert s[|r[0]|..] == Flatten(r[1..]);
    forall k | 0 <= k < |r[1..]| - 1 ensures Last(r[1..][k]) >= r[1..][k + 1][0] {
      assert r[1..][k] == r[k + 1] && r[1..][k + 1] == r[k + 2];
    }
  }

  /** Extending the last run of RUNS by S[j], or starting a run with it,
   *  keeps RUNS the natural runs of S[..j + 1]. Here the current run is
   *  S[l..j + 1], after the finished runs of S[..l]. */
  lemma CutRun(runs: seq<seq<int>>, s: seq<int>, l: int, j: int)
    requires 0 <= l <= j < |s| && RunsOf(runs, s[..l]) && Ascending(s[l..j + 1])
    requires runs != [] ==> Last(runs[|runs| - 1]) >= s[l]
    ensures RunsOf(runs + [s[l..j + 1]], s[..j + 1])
  {
    FlattenAppend(runs, s[l..j + 1]);
    assert s[..l] + s[l..j + 1] == s[..j + 1];
    var r := runs + [s[l..j + 1]];
    forall k | 0 <= k < |r| - 1 ensures Last(r[k]) >= r[k + 1][0] {
      assert r[k] == runs[k];
      if k < |runs| - 1 {
        assert r[k + 1] == runs[k + 1];
      }
    }
  }

  lemma AscendingExtend(s: seq<int>, l: int, i: int)
    requires 0 <= l <= i && i + 1 < |s| && Ascending(s[l..i + 1]) && s[i] < s[i + 1]
    ensures Ascending(s[l..i + 2])
  {
    var t := s[l..i + 2];
    forall u | 0 <= u < |t| - 1 ensures t[u] < t[u + 1] {
      if u + l < i {
        assert t[u] == s[l..i + 1][u] && t[u + 1] == s[l..i + 1][u + 1];
      }
    }
  }

  /** The only failure of the code as written: no descent before the last
   *  pair of heads, and a descent at the last pair. */
  predicate Defective(s: seq<int>)
  {
    |s| >= 2 && s[|s| - 2] >= s[|s| - 1] && Ascending(s[..|s| - 1])
  }

  /** The state of the scan of Lists.naturalRuns with I at node I: RUNS
   *  are the COUNTER runs cut so far, the natural runs of S up to L, the
   *  first node not yet in a run; S[l..i] ascends; and the last cut, if
   *  any, was at a descent. */
  predicate Scanned(s: seq<int>, runs: seq<seq<int>>, l: int, i: int, counter: int)
  {
    0 <= l <= i < |s| && counter == |runs| &&
    RunsOf(runs, s[..l]) && Ascending(s[l..i + 1]) &&
    (runs != [] ==> Last(runs[|runs| - 1]) >= s[l]) &&
    (counter == 0 ==> l == 0) &&
    (counter > 0 ==> 1 <= l && s[l - 1] >= s[l])
  }

  /** At a descent after I the current run is cut there and counted. */
  lemma CutStep(s: seq<int>, runs: seq<seq<int>>, l: int, i: int, counter: int)
    requires Scanned(s, runs, l, i, counter) && i + 1 < |s| && s[i] >= s[i + 1]
    ensures Scanned(s, runs + [s[l..i + 1]], i + 1, i + 1, counter + 1)
  {
    CutRun(runs, s, l, i);
    assert s[..i + 1][..l] == s[..l];
  }

  /** At a rise after I the current run grows by one node. */
  lemma ExtendStep(s: seq<int>, runs: seq<seq<int>>, l: int, i: int, counter: int)
    requires Scanned(s, runs, l, i, counter) && i + 1 < |s| && s[i] < s[i + 1]
    ensures Scanned(s, runs, l, i + 1, counter)
  {
    AscendingExtend(s, l, i);
  }

  /** Once I is the last node, the current run completes the natural runs. */
  lemma FinishRuns(s: seq<int>, runs: seq<seq<int>>, l: int, counter: int)
    requires s != [] && Scanned(s, runs, l, |s| - 1, counter)
    ensures RunsOf(runs + [s[l..]], s)
  {
    assert s[l..] == s[l..|s|];
    CutRun(runs, s, l, |s| - 1);
    assert s[..|s|] == s;
  }

  /** The inner loop of Lists.naturalRuns: walks I along the list while
   *  I has two successors, cutting after I at each descent. L is the
   *  first node not yet in a run and COUNTER the number of cuts. */
  method ScanRuns(s: seq<int>) returns (runs: seq<seq<int>>, l: int, i: int, counter: int)
    requires |s| >= 2
    ensures i == |s| - 2 && Scanned(s, runs, l, i, counter)
  {
    counter := 0;
    l, i := 0, 0;
    runs := [];
    while i + 2 < |s|
      invariant i <= |s| - 2 && Scanned(s, runs, l, i, counter)
    {
      if s[i] >= s[i + 1] {
        CutStep(s, runs, l, i, counter);
        runs := runs + [s[l..i + 1]];
        l := i + 1;
        i := l;
        counter := counter + 1;
      } else {
        ExtendStep(s, runs, l, i, counter);
        i := i + 1;
      }
    }
  }

  /** A list of at most one node is its own single run. */
  lemma ShortRun(s: seq<int>)
    requires |s| <= 1
    ensures s != [] ==> RunsOf([s], s)
  {
  }

  /** Lists.naturalRuns as written. When the only descent is between the
   *  last two heads, the branch for "no run was cut yet" replaces the
   *  result by the last run alone, dropping the run before it. */
  method NaturalRunsAsWritten(s: seq<int>) returns (runs: seq<seq<int>>)
    ensures s == [] ==> runs == [[]]
    ensures Defective(s) ==> runs == [[s[|s| - 1]]]
    ensures s != [] && !Defective(s) ==> RunsOf(runs, s)
  {
    if |s| <= 1 {
      ShortRun(s);
      return [s];
    }
    var l, i, counter;
    runs, l, i, counter := ScanRuns(s);
    // The outer loop of the source runs its body once: the body ends by
    // setting L to null. The last cut is not counted.
    ghost var cuts := counter;
    if s[i] >= s[i + 1] {
      CutStep(s, runs, l, i, counter);
      runs := runs + [s[l..i + 1]];
      l := i + 1;
      i := l;
      cuts := cuts + 1;
    } else {
      ExtendStep(s, runs, l, i, counter);
    }
    FinishRuns(s, runs, l, cuts);
    if counter == 0 {
      if l == 0 {
        runs := [s[l..]];
      } else {
        LastCutDefective(s, l);
        runs := [s[l..]];
      }
    } else {
      if cuts == counter {
        assert !Defective(s) by {
          assert s[..|s| - 1][l - 1] == s[l - 1] && s[..|s| - 1][l] == s[l];
        }
      } else {
        assert !Defective(s) by {
          assert s[..|s| - 1][l - 2] == s[l - 2] && s[..|s| - 1][l - 1] == s[l - 1];
        }
      }
      runs := runs + [s[l..]];
    }
  }

  /** With no earlier cut, a cut before the last node makes S defective,
   *  and the run after it is the last node alone. */
  lemma LastCutDefective(s: seq<int>, l: int)
    requires |s| >= 2 && l == |s| - 1 && Ascending(s[..l]) && s[l - 1] >= s[l]
    ensures Defective(s) && s[l..] == [s[|s| - 1]]
  {
  }

  /** The run lost on a defective list: the result holds only the last
   *  head, so it does not join up to S. */
  lemma DefectDropsRun(s: seq<int>)
    requires Defective(s)
    ensures Flatten([[s[|s| - 1]]]) != s && !RunsOf([[s[|s| - 1]]], s)
  {
    assert Flatten([[s[|s| - 1]]]) == [s[|s| - 1]];
  }

  /** The smallest defective list: (2, 1) gives ((1)), not ((2), (1)). */
  lemma TwoOneDefective()
    ensures Defective([2, 1]) && RunsOf([[2], [1]], [2, 1])
  {
    assert [2, 1][..1] == [2];
    assert Flatten([[2], [1]]) == [2] + Flatten([[1]]);
  }

  /** Lists.naturalRuns with the final cut counted like the others, so
   *  that the "no run was cut yet" branch only runs when none was. */
  method NaturalRuns(s: seq<int>) returns (runs: seq<seq<int>>)
    ensures s == [] ==> runs == [[]]
    ensures s != [] ==> RunsOf(runs, s)
  {
    if |s| <= 1 {
      ShortRun(s);
      return [s];
    }
    var l, i, counter;
    runs, l, i, counter := ScanRuns(s);
    if s[i] >= s[i + 1] {
      CutStep(s, runs, l, i, counter);
      runs := runs + [s[l..i + 1]];
      l := i + 1;
      i := l;
      counter := counter + 1;
    } else {
      ExtendStep(s, runs, l, i, counter);
    }
    FinishRuns(s, runs, l, counter);
    if counter == 0 {
      assert runs + [s[l..]] == [s[l..]];
      runs := [s[l..]];
    } else {
      runs := runs + [s[l..]];
    }
  }

  /** Lists.endOfRun: the last node of the longest strictly ascending
   *  stretch of S starting at node FROM. */
  method EndOfRun(s: seq<int>, from: int) returns (j: int)
    requires 0 <= from < |s|
    ensures from <= j < |s| && Ascending(s[from..j + 1])
    ensures j == |s| - 1 || s[j + 1] <= s[j]
  {
    j := from;
    while j + 1 < |s| && s[j + 1] > s[j]
      invariant from <= j < |s| && Ascending(s[from..j + 1])
    {
      AscendingExtend(s, from, j);
      j := j + 1;
    }
  }

  /** A non-empty ascending run in front of the natural runs of T, ending
   *  at a head no smaller than T's first, gives the natural runs of the
   *  two joined. */
  lemma RunsOfCons(run: seq<int>, rest: seq<seq<int>>, t: seq<int>)
    requires run != [] && Ascending(run) && RunsOf(rest, t)
    requires rest != [] ==> Last(run) >= rest[0][0]
    ensures RunsOf([run] + rest, run + t)
  {
    var r := [run] + rest;
    assert r[1..] == rest;
    forall k | 0 <= k < |r| ensures r[k] != [] && Ascending(r[k]) {
      if k > 0 {
        assert r[k] == rest[k - 1];
      }
    }
    forall k | 0 <= k < |r| - 1 ensures Last(r[k]) >= r[k + 1][0] {
      if k > 0 {
        assert r[k] == rest[k - 1] && r[k + 1] == rest[k];
      }
    }
  }

  // The lists from ListsTest.java, given to the code as written: none of
  // them is defective, so each gives its natural runs.

  method AscendingExample() {
    var s := [1, 3, 5, 7, 9, 11, 13, 15];
    var r := NaturalRunsAsWritten(s);
    assert s[..7] == [1, 3, 5, 7, 9, 11, 13];
    assert RunsOf([], []);
    RunsOfCons(s, [], []);
    assert s + [] == s;
    RunsUnique(r, [s], s);
  }

  method SingletonExample() {
    var r := NaturalRunsAsWritten([2]);
    assert RunsOf([], []);
    RunsOfCons([2], [], []);
    assert [2] + [] == [2];
    RunsUnique(r, [[2]], [2]);
  }

  method DescendingExample() {
    var s := [5, 4, 3, 2, 1];
    var r := NaturalRunsAsWritten(s);
    assert s[..4] == [5, 4, 3, 2] && s[..4][0] >= s[..4][1];
    assert RunsOf([], []);
    RunsOfCons([1], [], []);
    var g, t := [[1]] + [], [1] + [];
    RunsOfCons([2], g, t);
    g, t := [[2]] + g, [2] + t;
    RunsOfCons([3], g, t);
    g, t := [[3]] + g, [3] + t;
    RunsOfCons([4], g, t);
    g, t := [[4]] + g, [4] + t;
    RunsOfCons([5], g, t);
    g, t := [[5]] + g, [5] + t;
    assert t == s;
    RunsUnique(r, g, s);
    assert r == [[5], [4], [3], [2], [1]];
  }

  method FallingTailExample() {
    var s := [1, 2, 3, 2, 1, 0];
    var r := NaturalRunsAsWritten(s);
    assert s[..5] == [1, 2, 3, 2, 1] && s[..5][2] >= s[..5][3];
    assert RunsOf([], []);
    RunsOfCons([0], [], []);
    var g, t := [[0]] + [], [0] + [];
    RunsOfCons([1], g, t);
    g, t := [[1]] + g, [1] + t;
    RunsOfCons([2], g, t);
    g, t := [[2]] + g, [2] + t;
    RunsOfCons([1, 2, 3], g, t);
    g, t := [[1, 2, 3]] + g, [1, 2, 3] + t;
    assert t == s;
    RunsUnique(r, g, s);
    assert r == [[1, 2, 3], [2], [1], [0]];
  }

  method RisingTailExample() {
    var s := [5, 4, 1, 2, 3];
    var r := NaturalRunsAsWritten(s);
    assert s[..4] == [5, 4, 1, 2] && s[..4][0] >= s[..4][1];
    assert RunsOf([], []);
    RunsOfCons([1, 2, 3], [], []);
    var g, t := [[1, 2, 3]] + [], [1, 2, 3] + [];
    RunsOfCons([4], g, t);
    g, t := [[4]] + g, [4] + t;
    RunsOfCons([5], g, t);
    g, t := [[5]] + g, [5] + t;
    assert t == s;
    RunsUnique(r, g, s);
    assert r == [[5], [4], [1, 2, 3]];
  }

  method EmptyExample() {
    var r := NaturalRunsAsWritten([]);
    assert r == [[]];
  }
}
