/** A set of strings kept in a hash table with external chaining: an
 *  array of buckets, each a list of the strings whose hash selects it.
 *  Put never looks for an earlier copy, so the table holds a multiset,
 *  and the table doubles before an insertion that finds the load factor
 *  at its maximum. */
module EcHashStringSet {
  import opened JavaString
  import opened Seqs

  const MIN_LOAD_FACTOR: real := 0.2
  const MAX_LOAD_FACTOR: real := 5.0
  const INITIAL_BUCKETS := 5

  /** The bucket of S in a table of LEN buckets: the hash with its sign
   *  bit cleared, modulo LEN. */
  function Index(s: string, len: int): (r: int)
    requires len > 0
    ensures 0 <= r < len
  {
    PositiveHash(s) % len
  }

  /** Strings per bucket. */
  function LoadFactor(size: int, len: int): real
    requires len > 0
  {
    size as real / len as real
  }

  /** The load factor reaches its maximum exactly when there are at least
   *  five strings per bucket. */
  lemma AtMaxLoad(size: int, len: int)
    requires len > 0
    ensures LoadFactor(size, len) >= MAX_LOAD_FACTOR <==> size >= 5 * len
  {
    var q, l := LoadFactor(size, len), len as real;
    assert q * l == size as real;
    assert (q - MAX_LOAD_FACTOR) * l == size as real - MAX_LOAD_FACTOR * l;
    if q >= MAX_LOAD_FACTOR {
      assert (q - MAX_LOAD_FACTOR) * l >= 0.0;
    } else {
      assert (q - MAX_LOAD_FACTOR) * l < 0.0;
    }
  }

  /** Every string sits in the bucket its hash selects. */
  ghost predicate Placed(g: seq<seq<string>>)
  {
    forall b, i :: 0 <= b < |g| && 0 <= i < |g[b]| ==> Index(g[b][i], |g|) == b
  }

  /** G with S appended to the bucket its hash selects. */
  function Added(g: seq<seq<string>>, s: string): (r: seq<seq<string>>)
    requires |g| > 0
  {
    g[Index(s, |g|) := g[Index(s, |g|)] + [s]]
  }

  /** Adding a string keeps every string in its bucket and adds exactly
   *  that string to the contents. */
  lemma AddedKeeps(g: seq<seq<string>>, s: string)
    requires |g| > 0 && Placed(g)
    ensures Placed(Added(g, s))
    ensures multiset(Flatten(Added(g, s))) == multiset(Flatten(g)) + multiset{s}
    ensures |Flatten(Added(g, s))| == |Flatten(g)| + 1
  {
    var b := Index(s, |g|);
    var h := Added(g, s);
    forall c, i | 0 <= c < |h| && 0 <= i < |h[c]|
      ensures Index(h[c][i], |h|) == c
    {
      if c == b && i == |g[b]| {
        assert h[c][i] == s;
      } else {
        assert h[c][i] == g[c][i];
      }
    }
    AddedContents(g, s);
    assert |Flatten(h)| == |multiset(Flatten(h))|;
    assert |Flatten(g)| == |multiset(Flatten(g))|;
  }

  lemma AddedContents(g: seq<seq<string>>, s: string)
    requires |g| > 0
    ensures multiset(Flatten(Added(g, s))) == multiset(Flatten(g)) + multiset{s}
  {
    var b := Index(s, |g|);
    FlattenUpdate(g, b, g[b] + [s]);
    var x, y, bucket := multiset(Flatten(Added(g, s))), multiset(Flatten(g)), multiset(g[b]);
    assert multiset(g[b] + [s]) == bucket + multiset{s};
    assert x + bucket == (y + multiset{s}) + bucket;
    forall t ensures x[t] == (y + multiset{s})[t] {
      assert (x + bucket)[t] == ((y + multiset{s}) + bucket)[t];
    }
  }

  /** In a placed table a string is present exactly when it is in the
   *  bucket its hash selects: the other buckets need not be searched. */
  lemma PlacedFinds(g: seq<seq<string>>, s: string)
    requires |g| > 0 && Placed(g)
    ensures s in Flatten(g) <==> s in g[Index(s, |g|)]
  {
    FlattenMembers(g, s);
    if s in Flatten(g) {
      var b :| 0 <= b < |g| && s in g[b];
      var i :| 0 <= i < |g[b]| && g[b][i] == s;
      assert Index(g[b][i], |g|) == b;
    }
  }

  lemma PrefixGrows(q: seq<string>, k: int)
    requires 0 <= k < |q|
    ensures multiset(q[..k + 1]) == multiset(q[..k]) + multiset{q[k]}
  {
    assert q[..k + 1] == q[..k] + [q[k]];
  }

  /** A fresh array of N empty buckets. */
  method EmptyBuckets(n: nat) returns (a: array<seq<string>>)
    ensures fresh(a) && a.Length == n
    ensures forall b :: 0 <= b < n ==> a[b] == []
  {
    a := new seq<string>[n];
    var i := 0;
    while i < n
      invariant 0 <= i <= n
      invariant forall b :: 0 <= b < i ==> a[b] == []
    {
      a[i] := [];
      i := i + 1;
    }
  }

  /** An empty table is placed and holds nothing. */
  lemma EmptyPlaced(g: seq<seq<string>>)
    requires forall b :: 0 <= b < |g| ==> g[b] == []
    ensures Placed(g) && Flatten(g) == []
  {
    FlattenAllEmpty(g);
  }

  /** Appends S to the bucket of TABLE its hash selects. */
  method AddTo(table: array<seq<string>>, s: string)
    requires table.Length > 0
    modifies table
    ensures table[..] == Added(old(table[..]), s)
  {
    var b := Index(s, table.Length);
    table[b] := table[b] + [s];
  }

  /** Appends each of STORED, in order, to its bucket of TABLE. */
  method Rehash(stored: seq<string>, table: array<seq<string>>)
    requires table.Length > 0 && Placed(table[..]) && Flatten(table[..]) == []
    modifies table
    ensures Placed(table[..])
    ensures multiset(Flatten(table[..])) == multiset(stored)
    ensures |Flatten(table[..])| == |stored|
  {
    var k := 0;
    while k < |stored|
      invariant 0 <= k <= |stored|
      invariant Placed(table[..])
      invariant multiset(Flatten(table[..])) == multiset(stored[..k])
    {
      var s := stored[k];
      ghost var g := table[..];
      AddTo(table, s);
      AddedKeeps(g, s);
      PrefixGrows(stored, k);
      k := k + 1;
    }
    assert stored[..k] == stored;
    assert |Flatten(table[..])| == |multiset(Flatten(table[..]))|;
  }

  class ECHashStringSet {
    var storage: array<seq<string>>
    var size: int

    /** Every string is in its own bucket, SIZE counts the strings, and
     *  the table is never more than five strings per bucket. */
    ghost predicate Valid()
      reads this, storage
    {
      storage.Length >= INITIAL_BUCKETS &&
      Placed(storage[..]) &&
      size == |Flatten(storage[..])| &&
      size <= 5 * storage.Length
    }

    /** The strings held, with the multiplicity they were put with. */
    ghost function Contents(): multiset<string>
      reads this, storage
    {
      multiset(Flatten(storage[..]))
    }

    constructor ()
      ensures Valid() && fresh(storage)
      ensures storage.Length == INITIAL_BUCKETS && size == 0
      ensures Contents() == multiset{}
    {
      var buckets := EmptyBuckets(INITIAL_BUCKETS);
      EmptyPlaced(buckets[..]);
      storage := buckets;
      size := 0;
    }

    /** Adds S, even when it is already present, first doubling the table
     *  when the load factor is at its maximum. */
    method Put(s: string)
      requires Valid()
      modifies this, storage
      ensures Valid()
      ensures Contents() == old(Contents()) + multiset{s}
      ensures size == old(size) + 1
      ensures LoadFactor(old(size), old(storage.Length)) >= MAX_LOAD_FACTOR ==>
                fresh(storage) && storage.Length == 2 * old(storage.Length)
      ensures LoadFactor(old(size), old(storage.Length)) < MAX_LOAD_FACTOR ==>
                storage == old(storage)
    {
      AtMaxLoad(size, storage.Length);
      if LoadFactor(size, storage.Length) >= MAX_LOAD_FACTOR {
        Resize();
      }
      assert size < 5 * storage.Length;
      ghost var g := storage[..];
      AddTo(storage, s);
      AddedKeeps(g, s);
      size := size + 1;
    }

    /** Moves every string into a fresh table twice as long. */
    method Resize()
      requires Valid()
      modifies this
      ensures Valid() && fresh(storage)
      ensures storage.Length == 2 * old(storage.Length)
      ensures size == old(size) && Contents() == old(Contents())
    {
      var stored := AsList();
      var table := EmptyBuckets(storage.Length * 2);
      EmptyPlaced(table[..]);
      storage := table;
      Rehash(stored, table);
    }

    /** Whether S has been put: only its own bucket is searched. */
    function Contains(s: string): (b: bool)
      requires Valid()
      reads this, storage
      ensures b <==> s in Contents()
    {
      PlacedFinds(storage[..], s);
      s in storage[Index(s, storage.Length)]
    }

    /** The buckets' strings, bucket by bucket, one entry per put. */
    method AsList() returns (result: seq<string>)
      requires Valid()
      ensures result == Flatten(storage[..]) && |result| == size
      ensures multiset(result) == Contents()
    {
      result := [];
      var i := 0;
      while i < storage.Length
        invariant 0 <= i <= storage.Length
        invariant result == Flatten(storage[..i])
      {
        FlattenAppend(storage[..i], storage[i]);
        assert storage[..i + 1] == storage[..i] + [storage[i]];
        result := result + storage[i];
        i := i + 1;
      }
      assert storage[..i] == storage[..];
    }
  }

  /** A string put into the set is then found, whatever was there. */
  method PutThenContains(t: ECHashStringSet, s: string) returns (found: bool)
    requires t.Valid()
    modifies t, t.storage
    ensures t.Valid() && found
  {
    t.Put(s);
    found := t.Contains(s);
  }
}
