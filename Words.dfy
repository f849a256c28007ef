/**
 * Fixed-width integers of the C++ tools, modelled on Dafny's unbounded `int`.
 * Every cast or wrap-around the tools perform is written out with these
 * functions: `x % 2^n` is the unsigned reinterpretation of `x` (Dafny's `%`
 * is Euclidean, so it is never negative), and `I32` is `static_cast<int32_t>`.
 */
module Words {

  const TWO31: int := 0x8000_0000
  const TWO32: int := 0x1_0000_0000
  const TWO63: int := 0x8000_0000_0000_0000
  const TWO64: int := 0x1_0000_0000_0000_0000

  type uint16 = x: int | 0 <= x < 0x1_0000
  type uint32 = x: int | 0 <= x < 0x1_0000_0000
  type int32 = x: int | -0x8000_0000 <= x < 0x8000_0000
  type uint64 = x: int | 0 <= x < 0x1_0000_0000_0000_0000

  /** Conversion of any integer to `unsigned int` (wraps modulo 2^32). */
  function U32(x: int): (r: uint32)
    ensures 0 <= x < TWO32 ==> r == x
  {
    x % TWO32
  }

  /** Conversion of any integer to `uint64_t` (wraps modulo 2^64). */
  function U64(x: int): (r: uint64)
    ensures 0 <= x < TWO64 ==> r == x
    ensures -TWO63 <= x < 0 ==> r == x + TWO64
  {
    x % TWO64
  }

  /** `static_cast<int32_t>`: keeps the low 32 bits, read as two's complement. */
  function I32(x: int): (r: int32)
    ensures -TWO31 <= x < TWO31 ==> r == x
  {
    var u := x % TWO32;
    if u < TWO31 then u else u - TWO32
  }

  /** Adding to an already wrapped value wraps to the same result: `int32` arithmetic can wrap step by step. */
  lemma I32Add(a: int, s: int)
    ensures I32(I32(a) + s) == I32(a + s)
  {
    var k := I32(a) - a;
    assert k % TWO32 == 0 by {
      assert a % TWO32 == (if a % TWO32 < TWO31 then I32(a) else I32(a) + TWO32);
    }
    assert k == TWO32 * (k / TWO32);
    ModShift(a + s, k / TWO32);
  }

  lemma ModShift(x: int, q: int)
    ensures (x + TWO32 * q) % TWO32 == x % TWO32
  {
  }

  function Pow2(k: nat): (r: nat)
    ensures r >= 1
  {
    if k == 0 then 1 else 2 * Pow2(k - 1)
  }

  /** Bitwise `|` on non-negative integers, one bit at a time from the bottom. */
  function BitOr(a: nat, b: nat): nat
    decreases a + b
  {
    if a == 0 then b
    else if b == 0 then a
    else 2 * BitOr(a / 2, b / 2) + (if a % 2 == 1 || b % 2 == 1 then 1 else 0)
  }

  /** `|` never sets a bit above the operands' width. */
  lemma {:induction false} BitOrBound(a: nat, b: nat, k: nat)
    requires a < Pow2(k) && b < Pow2(k)
    ensures BitOr(a, b) < Pow2(k)
    decreases a + b
  {
    if a != 0 && b != 0 {
      BitOrBound(a / 2, b / 2, k - 1);
    }
  }

  /** When the bits of `y` lie below bit `k` and `x` has none there, `x | y == x + y`. */
  lemma {:induction false} BitOrDisjoint(q: nat, y: nat, k: nat)
    requires y < Pow2(k)
    ensures BitOr(q * Pow2(k), y) == q * Pow2(k) + y
  {
    if k == 0 {
      assert y == 0;
    } else {
      var x := q * Pow2(k - 1);
      assert q * Pow2(k) == 2 * x;
      if x != 0 && y != 0 {
        BitOrDisjoint(q, y / 2, k - 1);
        assert (2 * x) / 2 == x && (2 * x) % 2 == 0;
      }
    }
  }

  lemma {:induction false} Pow2Add(a: nat, b: nat)
    ensures Pow2(a + b) == Pow2(a) * Pow2(b)
  {
    if a > 0 {
      Pow2Add(a - 1, b);
    }
  }

  lemma Pow2Of16()
    ensures Pow2(1) == 2 && Pow2(16) == 0x1_0000
  {
    assert Pow2(8) == 256;
    Pow2Add(8, 8);
  }

  lemma Pow2Of32()
    ensures Pow2(1) == 2 && Pow2(32) == TWO32
  {
    Pow2Of16();
    Pow2Add(16, 16);
  }

  lemma Pow2Of64()
    ensures Pow2(1) == 2 && Pow2(64) == TWO64
  {
    Pow2Of32();
    Pow2Add(32, 32);
  }

  /** `x | y` on a 64-bit word stays a 64-bit word. */
  function Or64(x: uint64, y: uint64): (r: uint64)
    ensures r == BitOr(x, y)
    ensures x % 2 == 0 && y < 2 ==> r == x + y
  {
    Pow2Of64();
    BitOrBound(x, y, 64);
    if x % 2 == 0 && y < 2 then
      assert x / 2 * Pow2(1) == x;
      BitOrDisjoint(x / 2, y, 1);
      BitOr(x, y)
    else
      BitOr(x, y)
  }

  /** A word split into its high and low 32-bit halves. */
  lemma Split32(q: int, l: int)
    requires 0 <= l < TWO32
    ensures (q * TWO32 + l) / TWO32 == q
    ensures (q * TWO32 + l) % TWO32 == l
  {
  }
}
