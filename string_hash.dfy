/**
 * Java's `String.hashCode` and the case folding of the substring search.
 *
 * `Hash` is the mathematical polynomial s[0]*31^(n-1) + ... + s[n-1];
 * `HashCode` is what Java computes, wrapping to 32 bits at every step.
 * The two agree modulo 2^32, which is what lets the search keep a rolling
 * hash of its window in an `int`.
 */
module StringHash {
  import opened JavaInt
  import opened Sequences

  function Pow31(k: nat): nat
  {
    if k == 0 then 1 else 31 * Pow31(k - 1)
  }

  /** The polynomial hash of `s` with base 31, without wrap-around. */
  function Hash(s: seq<char>): int
  {
    if s == [] then 0 else 31 * Hash(s[..|s| - 1]) + (Last(s) as int)
  }

  /** `String.hashCode`: `h = 31 * h + c` over the characters, in `int` arithmetic. */
  function HashCode(s: seq<char>): int
  {
    if s == [] then 0 else Int32(Int32(31 * HashCode(s[..|s| - 1])) + (Last(s) as int))
  }

  /** Java's wrapping hash is the polynomial hash reduced to 32 bits. */
  lemma {:induction false} HashCodeIsWrappedHash(s: seq<char>)
    ensures HashCode(s) == Int32(Hash(s))
  {
    if s != [] {
      var init := s[..|s| - 1];
      HashCodeIsWrappedHash(init);
      PushChar(Hash(init), Last(s));
      assert HashCode(s) == Int32(Int32(31 * Int32(Hash(init))) + (Last(s) as int));
      assert Hash(s) == 31 * Hash(init) + (Last(s) as int);
    }
  }

  /** One step of the rolling hash: `31 * h + c` in `int` arithmetic, `h` the wrapped value of `hw`. */
  lemma PushChar(hw: int, c: char)
    ensures Int32(Int32(31 * Int32(hw)) + (c as int)) == Int32(31 * hw + (c as int))
  {
    Int32Add(31 * Int32(hw), c as int);
    MultipleOfModulus(Int32(hw) - hw, 31);
    assert (31 * Int32(hw) + (c as int)) - (31 * hw + (c as int)) == (Int32(hw) - hw) * 31;
    Int32Congruent(31 * Int32(hw) + (c as int), 31 * hw + (c as int));
  }

  /** The leading character of `s` carries the weight 31^(|s|-1). */
  lemma {:induction false} HashSplitFirst(s: seq<char>)
    requires |s| > 0
    ensures Hash(s) == (s[0] as int) * Pow31(|s| - 1) + Hash(s[1..])
  {
    if |s| > 1 {
      var init := s[..|s| - 1];
      HashSplitFirst(init);
      assert init[1..] == s[1..][..|s| - 2];
      assert Last(s[1..]) == Last(s);
      assert init[0] == s[0];
    } else {
      assert s[1..] == [];
      assert s[..0] == [];
    }
  }

  lemma {:induction false} Pow31Odd(k: nat)
    ensures Pow31(k) % 2 == 1
  {
    if k > 0 {
      Pow31Odd(k - 1);
    }
  }

  /** The weight of the oldest character never wraps to zero, as 31^k is odd. */
  lemma PowerNonZero(k: nat)
    ensures Int32(Pow31(k)) != 0
  {
    Pow31Odd(k);
    Int32OddNonZero(Pow31(k));
  }

  /** `power *= 31` in `int` arithmetic. */
  lemma PowerStep(k: nat)
    ensures Int32(Int32(Pow31(k)) * 31) == Int32(Pow31(k + 1))
  {
    Int32Mul(Pow31(k), 31);
  }

  /**
   * Removing the oldest character from a window of wrapped hash `h`, as the
   * search does: `h -= power * c`, both products in `int` arithmetic.
   */
  lemma DropFirst(w: seq<char>)
    requires |w| > 0
    ensures Int32(Int32(Hash(w)) - Int32(Int32(Pow31(|w| - 1)) * (w[0] as int))) == Int32(Hash(w[1..]))
  {
    var h, p, c, rest := Hash(w), Pow31(|w| - 1), w[0] as int, Hash(w[1..]);
    HashSplitFirst(w);
    assert h == c * p + rest;
    WrappedDifference(h, p, c, rest);
    assert Int32(Int32(h) - Int32(Int32(p) * c)) == Int32(rest);
  }

  lemma WrappedDifference(h: int, p: int, c: int, rest: int)
    requires h == c * p + rest
    ensures Int32(Int32(h) - Int32(Int32(p) * c)) == Int32(rest)
  {
    var q := Int32(Int32(p) * c);
    MultipleOfModulus(Int32(p) - p, c);
    DifferenceOfMultiples(Int32(h) - h, q - Int32(p) * c, (Int32(p) - p) * c);
    assert (Int32(h) - q) - rest == (Int32(h) - h) - (q - Int32(p) * c) - (Int32(p) - p) * c;
    Int32Congruent(Int32(h) - q, rest);
  }

  /** Java's `Character.toLowerCase`, on the ASCII letters. */
  function ToLower(c: char): char
  {
    if 'A' <= c <= 'Z' then (c as int + 32) as char else c
  }

  /** Java's `String.toLowerCase`, character by character. */
  function Lower(s: seq<char>): seq<char>
  {
    if s == [] then [] else Lower(s[..|s| - 1]) + [ToLower(Last(s))]
  }

  /** The character as the search hashes and compares it. */
  function Fold(ignoreCase: bool, c: char): char
  {
    if ignoreCase then ToLower(c) else c
  }

  /** The text as the search hashes and compares it. */
  function Folded(ignoreCase: bool, s: seq<char>): seq<char>
  {
    if ignoreCase then Lower(s) else s
  }

  /** Folding works character by character. */
  lemma {:induction false} FoldedChars(ignoreCase: bool, s: seq<char>)
    ensures |Folded(ignoreCase, s)| == |s|
    ensures forall i :: 0 <= i < |s| ==> Folded(ignoreCase, s)[i] == Fold(ignoreCase, s[i])
  {
    if ignoreCase && s != [] {
      FoldedChars(ignoreCase, s[..|s| - 1]);
    }
  }

  lemma FoldedAppend(ignoreCase: bool, s: seq<char>, c: char)
    ensures Folded(ignoreCase, s + [c]) == Folded(ignoreCase, s) + [Fold(ignoreCase, c)]
  {
    assert (s + [c])[..|s|] == s;
  }

  lemma FoldedDropFirst(ignoreCase: bool, s: seq<char>)
    requires |s| > 0
    ensures |Folded(ignoreCase, s)| == |s|
    ensures Folded(ignoreCase, s)[0] == Fold(ignoreCase, s[0])
    ensures Folded(ignoreCase, s[1..]) == Folded(ignoreCase, s)[1..]
  {
    FoldedChars(ignoreCase, s);
    FoldedChars(ignoreCase, s[1..]);
  }

  /** Lower-casing twice is lower-casing once. */
  lemma {:induction false} LowerIdempotent(s: seq<char>)
    ensures Lower(Lower(s)) == Lower(s)
  {
    FoldedChars(true, s);
    FoldedChars(true, Lower(s));
  }
}
