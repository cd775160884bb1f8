/**
 * Java `int` arithmetic: every `int` operation of the source wraps around
 * modulo 2^32 into the signed range. `Int32(x)` is the `int` that Java
 * stores for the mathematical value `x`.
 */
module JavaInt {
  const TWO_31: int := 0x8000_0000
  const TWO_32: int := 0x1_0000_0000

  /**
   * The 32-bit two's-complement value congruent to `x`: `x` moved into the
   * signed range by whole multiples of 2^32.
   */
  function Int32(x: int): (r: int)
    ensures -TWO_31 <= r < TWO_31
    ensures (r - x) % TWO_32 == 0
    decreases if x < 0 then -x else x + 1
  {
    if x < -TWO_31 then Int32(x + TWO_32)
    else if x < TWO_31 then x
    else Int32(x - TWO_32)
  }

  /** Two mathematical values that agree modulo 2^32 wrap to the same `int`. */
  lemma Int32Congruent(x: int, y: int)
    requires (x - y) % TWO_32 == 0
    ensures Int32(x) == Int32(y)
  {
    var a, b := Int32(x) - x, Int32(y) - y;
    var d := Int32(x) - Int32(y);
    assert d == a + (x - y) - b;
    assert a == (a / TWO_32) * TWO_32 && b == (b / TWO_32) * TWO_32;
    assert x - y == ((x - y) / TWO_32) * TWO_32;
    assert d == (a / TWO_32 + (x - y) / TWO_32 - b / TWO_32) * TWO_32;
  }

  /** Differences of multiples of 2^32 are multiples of 2^32. */
  lemma DifferenceOfMultiples(a: int, b: int, c: int)
    requires a % TWO_32 == 0 && b % TWO_32 == 0 && c % TWO_32 == 0
    ensures (a - b - c) % TWO_32 == 0
  {
    assert a == (a / TWO_32) * TWO_32 && b == (b / TWO_32) * TWO_32 && c == (c / TWO_32) * TWO_32;
    assert a - b - c == (a / TWO_32 - b / TWO_32 - c / TWO_32) * TWO_32;
  }

  lemma MultipleOfModulus(k: int, n: int)
    requires k % TWO_32 == 0
    ensures (k * n) % TWO_32 == 0
  {
    var j := k / TWO_32;
    assert k == j * TWO_32;
    assert k * n == (j * n) * TWO_32;
  }

  /** Wrapping an operand of a product first does not change the wrapped product. */
  lemma Int32Mul(a: int, b: int)
    ensures Int32(Int32(a) * b) == Int32(a * b)
  {
    MultipleOfModulus(Int32(a) - a, b);
    assert Int32(a) * b - a * b == (Int32(a) - a) * b;
    Int32Congruent(Int32(a) * b, a * b);
  }

  /** Wrapping an addend first does not change the wrapped sum. */
  lemma Int32Add(a: int, b: int)
    ensures Int32(Int32(a) + b) == Int32(a + b)
  {
    Int32Congruent(Int32(a) + b, a + b);
  }

  /** Wrapping a subtrahend first does not change the wrapped difference. */
  lemma Int32Sub(a: int, b: int)
    ensures Int32(a - Int32(b)) == Int32(a - b)
  {
    Int32Congruent(a - Int32(b), a - b);
  }

  /** An odd value never wraps to zero (2^32 is even). */
  lemma Int32OddNonZero(x: int)
    requires x % 2 == 1
    ensures Int32(x) != 0
  {
    var j := (Int32(x) - x) / TWO_32;
    assert Int32(x) == x + j * TWO_32;
    assert Int32(x) == x + (j * 0x8000_0000) * 2;
  }
}
