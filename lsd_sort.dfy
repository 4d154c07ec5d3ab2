/** Least-significant-digit radix sort of non-negative ints below 10^9,
 *  with ten FIFO buckets, one pass per decimal digit of the longest
 *  value. */
module LsdSort {
  import opened Sorting
  import opened Seqs

  /** The sort handles values in [0, LIMIT): there the digit-counting loop
   *  stops and the place value never exceeds a Java int. */
  const LIMIT := 1_000_000_000

  /** 10 to the power N. */
  function Pow10(n: nat): (r: int)
    ensures r >= 1
  {
    if n == 0 then 1 else 10 * Pow10(n - 1)
  }

  lemma {:induction false} Pow10Grows(i: nat, j: nat)
    requires i <= j
    ensures Pow10(i) <= Pow10(j)
    decreases j
  {
    if i < j {
      Pow10Grows(i, j - 1);
    }
  }

  // ---------------------------------------------------------------------
  // Arithmetic on place values

  lemma {:induction false} MulAtLeast(d: int, m: int)
    requires d >= 1 && m > 0
    ensures d * m >= m
    decreases d
  {
    if d > 1 {
      MulAtLeast(d - 1, m);
      assert d * m == (d - 1) * m + m;
    }
  }

  /** Multiples of M other than 0 are at least M away from 0. */
  lemma MulSign(d: int, m: int)
    requires m > 0
    ensures d >= 1 ==> d * m >= m
    ensures d <= -1 ==> d * m <= -m
  {
    if d >= 1 {
      MulAtLeast(d, m);
    } else if d <= -1 {
      MulAtLeast(-d, m);
      assert (-d) * m == -(d * m);
    }
  }

  /** Euclidean division is unique. */
  lemma DivModUnique(x: int, q: int, m: int, b: int)
    requires m > 0 && 0 <= b < m && x == q * m + b
    ensures x % m == b && x / m == q
  {
    var q', b' := x / m, x % m;
    assert (q - q') * m == b' - b;
    MulSign(q - q', m);
  }

  /** floorDiv(x, f) is 0 exactly when x < f. */
  lemma DivIsZero(x: int, f: int)
    requires 0 <= x && f > 0
    ensures (x / f == 0) == (x < f)
  {
    if x < f {
      DivModUnique(x, 0, f, x);
    }
  }

  /** The digit at place value F of X. */
  function Digit(x: int, f: int): (r: int)
    requires f >= 1
    ensures 0 <= r < 10
  {
    (x / f) % 10
  }

  /** x mod 10f is the digit at F times F plus x mod f. */
  lemma ModSplit(x: int, f: int)
    requires f >= 1
    ensures x % (10 * f) == Digit(x, f) * f + x % f
  {
    var q, r := x / f, x % f;
    var q1, q0 := q / 10, q % 10;
    assert q * f == q1 * 10 * f + q0 * f;
    assert 0 <= q0 * f <= 9 * f by {
      if q0 > 0 { MulAtLeast(q0, f); }
      if q0 < 9 { MulAtLeast(9 - q0, f); }
    }
    DivModUnique(x, q1, 10 * f, q0 * f + r);
  }

  /** A larger digit at F means a larger remainder mod 10f. */
  lemma DigitOrder(u: int, v: int, f: int)
    requires f >= 1 && Digit(u, f) < Digit(v, f)
    ensures u % (10 * f) < v % (10 * f)
  {
    ModSplit(u, f);
    ModSplit(v, f);
    MulAtLeast(Digit(v, f) - Digit(u, f), f);
    assert (Digit(v, f) - Digit(u, f)) * f == Digit(v, f) * f - Digit(u, f) * f;
  }

  // ---------------------------------------------------------------------
  // longest

  /** The number of decimal digits of X; 0 has one. */
  function Digits(x: nat): (r: nat)
    ensures r >= 1
  {
    if x < 10 then 1 else 1 + Digits(x / 10)
  }

  /** X has Digits(x) digits: it lies in [10^(n-1), 10^n), or below 10
   *  when n is 1. */
  lemma {:induction false} DigitsBounds(x: nat)
    ensures x < Pow10(Digits(x)) && (Digits(x) == 1 || Pow10(Digits(x) - 1) <= x)
    decreases x
  {
    if x >= 10 {
      DigitsBounds(x / 10);
    }
  }

  /** The digit count is the only N with X in [10^(n-1), 10^n). */
  lemma DigitsUnique(x: nat, n: nat)
    requires 1 <= n && x < Pow10(n) && (n == 1 || Pow10(n - 1) <= x)
    ensures Digits(x) == n
  {
    DigitsBounds(x);
    var m := Digits(x);
    if m < n {
      Pow10Grows(m, n - 1);
    } else if m > n {
      Pow10Grows(n, m - 1);
    }
  }

  /** The inner loop of longest: counts the digits of X by raising the
   *  place value F until floorDiv(x, f) is 0. */
  method DigitCount(x: int) returns (length: int)
    requires 0 <= x < LIMIT
    ensures length == Digits(x) && length <= 9
  {
    var f := 10;
    length := 1;
    assert LIMIT == Pow10(9);
    while x / f != 0
      invariant 1 <= length <= 9 && f == Pow10(length)
      invariant length == 1 || Pow10(length - 1) <= x
      decreases 9 - length
    {
      DivIsZero(x, f);
      assert length < 9;
      length := length + 1;
      f := f * 10;
    }
    DivIsZero(x, f);
    DigitsUnique(x, length);
  }

  /** LSDSort.longest: the largest digit count among a[0..k), 0 when k is
   *  0. */
  method Longest(a: array<int>, k: int) returns (longest: int)
    requires 0 <= k <= a.Length
    requires forall i :: 0 <= i < k ==> 0 <= a[i] < LIMIT
    ensures 0 <= longest <= 9
    ensures forall i :: 0 <= i < k ==> Digits(a[i]) <= longest
    ensures k == 0 ==> longest == 0
    ensures k > 0 ==> exists i :: 0 <= i < k && Digits(a[i]) == longest
  {
    longest := 0;
    for i := 0 to k
      invariant 0 <= longest <= 9
      invariant forall t :: 0 <= t < i ==> Digits(a[t]) <= longest
      invariant i == 0 ==> longest == 0
      invariant i > 0 ==> exists t :: 0 <= t < i && Digits(a[t]) == longest
    {
      var length := DigitCount(a[i]);
      if length > longest {
        longest := length;
      }
    }
  }

  // ---------------------------------------------------------------------
  // One pass: distribute into buckets by one digit, then collect

  /** The entries of S whose digit at F is D, in their order in S: what
   *  bucket D holds after the distributing loop. */
  function Bucket(s: seq<int>, f: int, d: int): (r: seq<int>)
    requires f >= 1
    ensures |r| <= |s|
    decreases |s|
  {
    if s == [] then []
    else
      var x := s[|s| - 1];
      Bucket(s[..|s| - 1], f, d) + (if Digit(x, f) == d then [x] else [])
  }

  /** Buckets D to 9 laid end to end: what the collecting loop writes
   *  from bucket D on. */
  function Gather(s: seq<int>, f: int, d: int): seq<int>
    requires f >= 1 && 0 <= d <= 10
    decreases 10 - d
  {
    if d == 10 then [] else Bucket(s, f, d) + Gather(s, f, d + 1)
  }

  /** The result of one pass at place value F. */
  function Distribute(s: seq<int>, f: int): seq<int>
    requires f >= 1
  {
    Gather(s, f, 0)
  }

  /** Every entry of bucket D comes from S and has digit D. */
  lemma {:induction false} BucketMembers(s: seq<int>, f: int, d: int)
    requires f >= 1
    ensures forall y :: y in Bucket(s, f, d) ==> y in s && Digit(y, f) == d
    decreases |s|
  {
    if s != [] {
      BucketMembers(s[..|s| - 1], f, d);
    }
  }

  /** Appending X to S appends X to its own bucket. */
  lemma BucketAppend(s: seq<int>, x: int, f: int, d: int)
    requires f >= 1
    ensures Bucket(s + [x], f, d) == Bucket(s, f, d) + (if Digit(x, f) == d then [x] else [])
  {
    assert (s + [x])[..|s|] == s;
  }

  /** The last entry of S is in the buckets from D on iff its digit is at
   *  least D. */
  lemma {:induction false} GatherLast(s: seq<int>, f: int, d: int)
    requires f >= 1 && 0 <= d <= 10 && s != []
    ensures multiset(Gather(s, f, d)) == multiset(Gather(s[..|s| - 1], f, d)) +
            (if d <= Digit(s[|s| - 1], f) then multiset{s[|s| - 1]} else multiset{})
    decreases 10 - d
  {
    if d < 10 {
      var p, x := s[..|s| - 1], s[|s| - 1];
      BucketLast(s, f, d);
      GatherLast(s, f, d + 1);
      ConcatGrows(Gather(p, f, d), Gather(s, f, d), Bucket(p, f, d), Gather(p, f, d + 1),
                  Bucket(s, f, d), Gather(s, f, d + 1), x, Digit(x, f), d);
    }
  }

  /** The last entry of S is in bucket D iff its digit is D. */
  lemma BucketLast(s: seq<int>, f: int, d: int)
    requires f >= 1 && s != []
    ensures multiset(Bucket(s, f, d)) == multiset(Bucket(s[..|s| - 1], f, d)) +
            (if Digit(s[|s| - 1], f) == d then multiset{s[|s| - 1]} else multiset{})
  {
    var x := s[|s| - 1];
    assert Bucket(s, f, d) == Bucket(s[..|s| - 1], f, d) + (if Digit(x, f) == d then [x] else []);
  }

  /** Bucket D grows by X when X's digit K is D, and the buckets after it
   *  when K exceeds D; so the buckets from D on grow by X iff D <= K. */
  lemma ConcatGrows(gp: seq<int>, gs: seq<int>, b: seq<int>, g: seq<int>, b': seq<int>, g': seq<int>,
                    x: int, k: int, d: int)
    requires gp == b + g && gs == b' + g'
    requires multiset(b') == multiset(b) + (if k == d then multiset{x} else multiset{})
    requires multiset(g') == multiset(g) + (if d + 1 <= k then multiset{x} else multiset{})
    ensures multiset(gs) == multiset(gp) + (if d <= k then multiset{x} else multiset{})
  {
  }

  lemma {:induction false} GatherEmpty(f: int, d: int)
    requires f >= 1 && 0 <= d <= 10
    ensures Gather([], f, d) == []
    decreases 10 - d
  {
    if d < 10 {
      GatherEmpty(f, d + 1);
    }
  }

  /** A pass permutes its input. */
  lemma {:induction false} DistributePermutes(s: seq<int>, f: int)
    requires f >= 1
    ensures multiset(Distribute(s, f)) == multiset(s)
    decreases |s|
  {
    if s == [] {
      GatherEmpty(f, 0);
    } else {
      var n := |s| - 1;
      DistributePermutes(s[..n], f);
      assert s == s[..n] + [s[n]];
      GatherLast(s, f, 0);
    }
  }

  /** S is ordered by remainder mod M: after p passes, M is 10^p. */
  predicate KeySorted(s: seq<int>, m: int)
    requires m >= 1
  {
    forall i, j :: 0 <= i < j < |s| ==> s[i] % m <= s[j] % m
  }

  /** A bucket keeps the order of S, so an order of S by remainder mod F
   *  carries over, and on a shared digit at F it extends to mod 10f. */
  lemma {:induction false} BucketKeySorted(s: seq<int>, f: int, d: int)
    requires f >= 1 && KeySorted(s, f)
    ensures KeySorted(Bucket(s, f, d), 10 * f)
    decreases |s|
  {
    if s != [] {
      var n := |s| - 1;
      var x := s[n];
      var b := Bucket(s[..n], f, d);
      assert KeySorted(s[..n], f) by {
        forall i, j | 0 <= i < j < n ensures s[..n][i] % f <= s[..n][j] % f {
          assert s[..n][i] == s[i] && s[..n][j] == s[j];
        }
      }
      BucketKeySorted(s[..n], f, d);
      if Digit(x, f) == d {
        BucketMembers(s[..n], f, d);
        forall i | 0 <= i < |b| ensures b[i] % (10 * f) <= x % (10 * f) {
          assert b[i] in b;
          var t :| 0 <= t < n && s[..n][t] == b[i];
          assert s[t] % f <= x % f;
          ModSplit(b[i], f);
          ModSplit(x, f);
        }
        assert Bucket(s, f, d) == b + [x];
      }
    }
  }

  /** Buckets D to 9 are ordered mod 10f, and each entry has digit at
   *  least D. */
  lemma {:induction false} GatherKeySorted(s: seq<int>, f: int, d: int)
    requires f >= 1 && 0 <= d <= 10 && KeySorted(s, f)
    ensures KeySorted(Gather(s, f, d), 10 * f)
    ensures forall y :: y in Gather(s, f, d) ==> d <= Digit(y, f)
    decreases 10 - d
  {
    if d < 10 {
      var b, g := Bucket(s, f, d), Gather(s, f, d + 1);
      GatherKeySorted(s, f, d + 1);
      BucketKeySorted(s, f, d);
      BucketMembers(s, f, d);
      DigitsOrdered(b, g, f, d);
      KeySortedConcat(b, g, 10 * f);
      assert Gather(s, f, d) == b + g;
    }
  }

  /** Entries of digit D come, mod 10f, before entries of larger digits. */
  lemma DigitsOrdered(b: seq<int>, g: seq<int>, f: int, d: int)
    requires f >= 1
    requires forall y :: y in b ==> Digit(y, f) == d
    requires forall y :: y in g ==> d + 1 <= Digit(y, f)
    ensures forall i, j :: 0 <= i < |b| && 0 <= j < |g| ==> b[i] % (10 * f) <= g[j] % (10 * f)
  {
    forall i, j | 0 <= i < |b| && 0 <= j < |g|
      ensures b[i] % (10 * f) <= g[j] % (10 * f)
    {
      assert b[i] in b && g[j] in g;
      DigitOrder(b[i], g[j], f);
    }
  }

  /** Two sequences ordered mod M, the first wholly before the second,
   *  join up to one ordered mod M. */
  lemma KeySortedConcat(b: seq<int>, g: seq<int>, m: int)
    requires m >= 1 && KeySorted(b, m) && KeySorted(g, m)
    requires forall i, j :: 0 <= i < |b| && 0 <= j < |g| ==> b[i] % m <= g[j] % m
    ensures KeySorted(b + g, m)
  {
    forall i, j | 0 <= i < j < |b + g|
      ensures (b + g)[i] % m <= (b + g)[j] % m
    {
      if j < |b| {
        assert (b + g)[i] == b[i] && (b + g)[j] == b[j];
      } else if i < |b| {
        assert (b + g)[i] == b[i] && (b + g)[j] == g[j - |b|];
      } else {
        assert (b + g)[i] == g[i - |b|] && (b + g)[j] == g[j - |b|];
      }
    }
  }

  /** A pass at place value F turns an order mod F into an order mod 10f. */
  lemma DistributeSorts(s: seq<int>, f: int)
    requires f >= 1 && KeySorted(s, f)
    ensures KeySorted(Distribute(s, f), 10 * f)
  {
    GatherKeySorted(s, f, 0);
  }

  // ---------------------------------------------------------------------
  // The sort

  /** The distributing loop of a pass: each a[i], i < k, in turn joins
   *  the back of the bucket of its digit at F. */
  method Scatter(a: array<int>, k: int, buckets: array<seq<int>>, f: int)
    requires 0 <= k <= a.Length && buckets.Length == 10 && f >= 1
    requires forall i :: 0 <= i < k ==> a[i] >= 0
    requires forall d :: 0 <= d < 10 ==> buckets[d] == []
    modifies buckets
    ensures forall d :: 0 <= d < 10 ==> buckets[d] == Bucket(a[..k], f, d)
  {
    for i := 0 to k
      invariant forall d :: 0 <= d < 10 ==> buckets[d] == Bucket(a[..i], f, d)
    {
      var item := a[i];
      var bucket := (item / f) % 10;
      forall d | 0 <= d < 10 ensures Bucket(a[..i + 1], f, d) == Bucket(a[..i], f, d) + (if Digit(item, f) == d then [item] else []) {
        assert a[..i + 1] == a[..i] + [item];
        BucketAppend(a[..i], item, f, d);
      }
      buckets[bucket] := buckets[bucket] + [item];
    }
  }

  /** The inner loop of the collecting phase: empties bucket D from the
   *  front into a[index..]. */
  method Drain(a: array<int>, buckets: array<seq<int>>, d: int, index: int) returns (next: int)
    requires buckets.Length == 10 && 0 <= d < 10
    requires 0 <= index && index + |buckets[d]| <= a.Length
    modifies a, buckets
    ensures next == index + |old(buckets[d])|
    ensures a[..] == old(a[..])[..index] + old(buckets[d]) + old(a[..])[next..]
    ensures buckets[..] == old(buckets[..])[d := []]
  {
    ghost var s, b := a[..], buckets[d];
    ghost var out := [];
    next := index;
    while buckets[d] != []
      invariant index <= next && next - index == |out| && next + |buckets[d]| == index + |b|
      invariant out + buckets[d] == b
      invariant a[..] == s[..index] + out + s[next..]
      invariant buckets[..] == old(buckets[..])[d := buckets[d]]
      decreases |buckets[d]|
    {
      var v := buckets[d][0];
      ghost var before := a[..];
      a[next] := v;
      Overwrite(s, out, index, next, v);
      assert a[..] == before[next := v];
      out := out + [v];
      buckets[d] := buckets[d][1..];
      assert b == out + buckets[d];
      next := next + 1;
    }
  }

  /** An array of buckets filled by Scatter flattens to one pass. */
  lemma {:induction false} GatherFlatten(s: seq<int>, f: int, g: seq<seq<int>>, d: int)
    requires f >= 1 && 0 <= d <= 10 && |g| == 10
    requires forall e :: 0 <= e < 10 ==> g[e] == Bucket(s, f, e)
    ensures Gather(s, f, d) == Flatten(g[d..])
    decreases 10 - d
  {
    if d < 10 {
      GatherFlatten(s, f, g, d + 1);
      FlattenStep(g, d);
    }
  }

  /** The collecting phase: buckets 0 to 9 in turn are emptied into a
   *  from the front. */
  method Collect(a: array<int>, k: int, buckets: array<seq<int>>)
    requires 0 <= k <= a.Length && buckets.Length == 10 && |Flatten(buckets[..])| == k
    modifies a, buckets
    ensures a[..] == Flatten(old(buckets[..])) + old(a[..])[k..]
    ensures forall d :: 0 <= d < 10 ==> buckets[d] == []
  {
    ghost var g, s0 := buckets[..], a[..];
    ghost var t := Flatten(g);
    assert g[0..] == g;
    var index := 0;
    for d := 0 to 10
      invariant 0 <= index <= k && t[index..] == Flatten(g[d..])
      invariant a[..] == t[..index] + s0[index..]
      invariant forall e :: d <= e < 10 ==> buckets[e] == g[e]
      invariant forall e :: 0 <= e < d ==> buckets[e] == []
    {
      ghost var bs := buckets[..];
      FlattenStep(g, d);
      GatherSplit(t, index, g[d], Flatten(g[d + 1..]));
      index := CollectBucket(a, buckets, d, index, g[d], t, s0);
      forall e | 0 <= e < 10 ensures buckets[e] == (if e == d then [] else bs[e]) {
        assert buckets[e] == buckets[..][e];
      }
    }
    assert t[..index] == t;
  }

  /** Drains bucket D, which holds B, into a at INDEX, where T holds B, so that a
   *  holds T up to the returned index and S0 after it. */
  method CollectBucket(a: array<int>, buckets: array<seq<int>>, d: int, index: int,
                       ghost b: seq<int>, ghost t: seq<int>, ghost s0: seq<int>) returns (next: int)
    requires buckets.Length == 10 && 0 <= d < 10 && |s0| == a.Length && buckets[d] == b
    requires 0 <= index && index + |b| <= |t| <= a.Length && t[index..index + |b|] == b
    requires a[..] == t[..index] + s0[index..]
    modifies a, buckets
    ensures next == index + |old(buckets[d])|
    ensures a[..] == t[..next] + s0[next..]
    ensures buckets[..] == old(buckets[..])[d := []]
  {
    ghost var g := a[..];
    next := Drain(a, buckets, d, index);
    CollectStep(t, g, a[..], index, next, s0, b);
  }

  /** T from I on is bucket B followed by REST. */
  lemma GatherSplit(t: seq<int>, i: int, b: seq<int>, rest: seq<int>)
    requires 0 <= i <= |t| && t[i..] == b + rest
    ensures t[i..i + |b|] == b && t[i + |b|..] == rest
  {
    assert t[i..i + |b|] == t[i..][..|b|];
    assert t[i + |b|..] == t[i..][|b|..];
  }

  /** Draining bucket B at index I extends the collected prefix of T. */
  lemma CollectStep(t: seq<int>, g: seq<int>, h: seq<int>, i: int, j: int, s0: seq<int>, b: seq<int>)
    requires 0 <= i <= j <= |t| <= |s0| && |g| == |s0| && j == i + |b| && t[i..j] == b
    requires g == t[..i] + s0[i..]
    requires h == g[..i] + b + g[j..]
    ensures h == t[..j] + s0[j..]
  {
    assert g[..i] == t[..i];
    assert g[j..] == s0[j..];
    assert t[..j] == t[..i] + t[i..j];
  }

  /** One pass at place value F: scatter a[..k] into the empty buckets,
   *  then collect them back into a. */
  method Pass(a: array<int>, k: int, buckets: array<seq<int>>, f: int)
    requires 0 <= k <= a.Length && buckets.Length == 10 && f >= 1
    requires forall i :: 0 <= i < k ==> a[i] >= 0
    requires forall d :: 0 <= d < 10 ==> buckets[d] == []
    modifies a, buckets
    ensures a[..k] == Distribute(old(a[..k]), f) && a[k..] == old(a[k..])
    ensures forall d :: 0 <= d < 10 ==> buckets[d] == []
  {
    ghost var s, s0 := a[..k], a[..];
    Scatter(a, k, buckets, f);
    GatherFlatten(s, f, buckets[..], 0);
    assert buckets[..][0..] == buckets[..];
    DistributePermutes(s, f);
    assert |Distribute(s, f)| == k by {
      assert |multiset(Distribute(s, f))| == |multiset(s)|;
    }
    Collect(a, k, buckets);
    assert a[..k] == a[..][..k] && a[k..] == a[..][k..] && s0[k..] == old(a[k..]);
  }

  /** Every value of S lies in [0, M). */
  predicate Below(s: seq<int>, m: int)
  {
    forall i :: 0 <= i < |s| ==> 0 <= s[i] < m
  }

  /** A permutation of values in [0, M) has its values in [0, M). */
  lemma BoundedPermutes(s: seq<int>, t: seq<int>, m: int)
    requires multiset(s) == multiset(t) && Below(s, m)
    ensures Below(t, m)
  {
    forall i | 0 <= i < |t| ensures 0 <= t[i] < m {
      assert t[i] in multiset(t);
      var j :| 0 <= j < |s| && s[j] == t[i];
    }
  }

  /** Ordered by remainder mod M and all below M: ordered outright. */
  lemma KeySortedBelow(s: seq<int>, m: int)
    requires m >= 1 && KeySorted(s, m) && Below(s, m)
    ensures Sorted(s)
  {
    forall i, j | 0 <= i < j < |s| ensures s[i] <= s[j] {
      DivModUnique(s[i], 0, m, s[i]);
      DivModUnique(s[j], 0, m, s[j]);
    }
  }

  /** A pass keeps a[..k] a permutation of values in [0, M) and refines
   *  its order from mod F to mod 10f. */
  method SortPass(a: array<int>, k: int, buckets: array<seq<int>>, f: int, ghost m: int)
    requires 0 <= k <= a.Length && buckets.Length == 10 && f >= 1
    requires Below(a[..k], m) && KeySorted(a[..k], f)
    requires forall d :: 0 <= d < 10 ==> buckets[d] == []
    modifies a, buckets
    ensures Below(a[..k], m)
    ensures forall d :: 0 <= d < 10 ==> buckets[d] == []
    ensures KeySorted(a[..k], 10 * f)
    ensures multiset(a[..k]) == multiset(old(a[..k])) && a[k..] == old(a[k..])
  {
    ghost var s := a[..k];
    assert forall i :: 0 <= i < k ==> a[i] == s[i];
    Pass(a, k, buckets, f);
    PassKeeps(s, a[..k], f, m);
  }

  /** What one pass T of S keeps and what it gains. */
  lemma PassKeeps(s: seq<int>, t: seq<int>, f: int, m: int)
    requires f >= 1 && t == Distribute(s, f) && KeySorted(s, f) && Below(s, m)
    ensures Below(t, m)
    ensures KeySorted(t, 10 * f) && multiset(t) == multiset(s)
  {
    DistributePermutes(s, f);
    DistributeSorts(s, f);
    BoundedPermutes(s, t, m);
  }

  /** Every value has at most N digits, so is below 10^n. */
  lemma DigitsBelow(s: seq<int>, n: nat)
    requires forall i :: 0 <= i < |s| ==> 0 <= s[i] && Digits(s[i]) <= n
    ensures Below(s, Pow10(n))
  {
    forall i | 0 <= i < |s| ensures s[i] < Pow10(n) {
      DigitsBounds(s[i]);
      Pow10Grows(Digits(s[i]), n);
    }
  }

  /** LSDSort.sort: sorts a[..k] with one pass per digit of its longest
   *  value, least significant digit first. */
  method Sort(a: array<int>, k: int)
    requires 0 <= k <= a.Length
    requires forall i :: 0 <= i < k ==> 0 <= a[i] < LIMIT
    modifies a
    ensures Sorted(a[..k])
    ensures multiset(a[..k]) == multiset(old(a[..k])) && a[k..] == old(a[k..])
  {
    var longest := Longest(a, k);
    ghost var n := longest;
    DigitsBelow(a[..k], n);
    var buckets := new seq<int>[10](_ => []);
    var f := 1;
    ghost var p := 0;
    while longest != 0
      invariant 0 <= longest && p + longest == n && f == Pow10(p)
      invariant forall d :: 0 <= d < 10 ==> buckets[d] == []
      invariant Below(a[..k], Pow10(n)) && KeySorted(a[..k], f)
      invariant multiset(a[..k]) == multiset(old(a[..k])) && a[k..] == old(a[k..])
    {
      SortPass(a, k, buckets, f, Pow10(n));
      f := f * 10;
      longest := longest - 1;
      p := p + 1;
    }
    KeySortedBelow(a[..k], f);
  }
}
