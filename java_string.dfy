/** The two String methods the string sets rely on: compareTo, the
 *  lexicographic order on UTF-16 code units, and hashCode, the 32-bit
 *  polynomial hash with multiplier 31. */
module JavaString {

  /** String.compareTo: the difference of the first pair of differing
   *  characters, or else the difference of the lengths. */
  function CompareTo(a: string, b: string): (r: int)
    ensures r == 0 <==> a == b
  {
    if a == [] || b == [] then |a| - |b|
    else if a[0] != b[0] then a[0] as int - b[0] as int
    else
      assert a == [a[0]] + a[1..] && b == [b[0]] + b[1..];
      CompareTo(a[1..], b[1..])
  }

  /** A comes strictly before B. */
  predicate Less(a: string, b: string)
  {
    CompareTo(a, b) < 0
  }

  /** Swapping the arguments negates the result. */
  lemma {:induction false} CompareToFlips(a: string, b: string)
    ensures CompareTo(b, a) == -CompareTo(a, b)
  {
    if a != [] && b != [] && a[0] == b[0] {
      CompareToFlips(a[1..], b[1..]);
    }
  }

  /** The order is transitive. */
  lemma {:induction false} LessTransitive(a: string, b: string, c: string)
    requires Less(a, b) && Less(b, c)
    ensures Less(a, c)
  {
    if a != [] && b != [] && c != [] && a[0] == b[0] && b[0] == c[0] {
      LessTransitive(a[1..], b[1..], c[1..]);
    }
  }

  /** For any two strings exactly one of Less(a, b), a == b, Less(b, a)
   *  holds. */
  lemma Trichotomy(a: string, b: string)
    ensures Less(a, b) || a == b || Less(b, a)
    ensures !(Less(a, b) && Less(b, a))
  {
    CompareToFlips(a, b);
  }

  const TWO_TO_THE_32 := 0x1_0000_0000
  const TWO_TO_THE_31 := 0x8000_0000

  /** String.hashCode as its 32 bits, read unsigned: h = 31 * h + c for
   *  each character c, wrapping modulo 2^32. */
  function HashBits(s: string): (r: int)
    ensures 0 <= r < TWO_TO_THE_32
  {
    if s == [] then 0
    else (31 * HashBits(s[..|s| - 1]) + s[|s| - 1] as int) % TWO_TO_THE_32
  }

  /** s.hashCode() & 0x7fffffff: clearing the sign bit of the 32-bit
   *  hash keeps its low 31 bits. */
  function PositiveHash(s: string): (r: int)
    ensures 0 <= r < TWO_TO_THE_31
  {
    HashBits(s) % TWO_TO_THE_31
  }
}
