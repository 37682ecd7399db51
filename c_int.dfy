/** The C integer semantics the TMP102 driver relies on, on a target whose
    `int` is 32 bits wide and uses two's complement (an ARM Cortex-M).
    Dafny's `int` is unbounded and its `/` and `%` are Euclidean, so every
    C operator the driver applies is written out here: conversion to
    `int16_t`, shifts, bitwise `|` and `&`, and division and remainder that
    truncate toward zero. */
module CInt {

  const INT16_MIN: int := -0x8000
  const INT16_MAX: int := 0x7FFF
  const INT32_MIN: int := -0x8000_0000
  const INT32_MAX: int := 0x7FFF_FFFF

  /** `uint8_t` */
  type uint8 = x: int | 0 <= x < 0x100

  predicate IsInt32(x: int) {
    INT32_MIN <= x <= INT32_MAX
  }

  function Abs(x: int): (r: nat)
    ensures r == x || r == -x
  {
    if x < 0 then -x else x
  }

  function Pow2(n: nat): (p: nat)
    ensures p >= 1
  {
    if n == 0 then 1 else 2 * Pow2(n - 1)
  }

  /** The powers of two the driver's constants are built from. */
  lemma Pow2Values()
    ensures Pow2(4) == 0x10 && Pow2(8) == 0x100 && Pow2(11) == 0x800
    ensures Pow2(12) == 0x1000 && Pow2(20) == 0x10_0000
    ensures Pow2(31) == 0x8000_0000 && Pow2(32) == 0x1_0000_0000
  {
  }

  // ---------------------------------------------------------------------
  // Conversions between widths

  /** Conversion of an integer value to `int16_t`. Out-of-range values are
      reduced modulo 2^16. C99 6.3.1.3 leaves this conversion
      implementation-defined; the model follows the modulo-2^16 behaviour
      that GCC and Clang document. */
  function ToInt16(x: int): (r: int)
    ensures INT16_MIN <= r <= INT16_MAX
    ensures (x - r) % 0x1_0000 == 0
    ensures INT16_MIN <= x <= INT16_MAX ==> r == x
  {
    var u := x % 0x1_0000;
    if u <= INT16_MAX then u else u - 0x1_0000
  }

  /** The 32-bit two's-complement pattern of a C `int`. */
  function Bits32(x: int): (u: nat)
    requires IsInt32(x)
    ensures u < 0x1_0000_0000
    ensures u == x || u == x + 0x1_0000_0000
  {
    if x < 0 then x + 0x1_0000_0000 else x
  }

  /** The C `int` whose pattern is the low 32 bits of `u`. */
  function FromBits32(u: nat): (x: int)
    ensures IsInt32(x)
    ensures u < 0x1_0000_0000 ==> Bits32(x) == u
  {
    var v := u % 0x1_0000_0000;
    if v <= INT32_MAX then v else v - 0x1_0000_0000
  }

  // ---------------------------------------------------------------------
  // Bitwise operators

  /** Bitwise or of two natural numbers, bit by bit from the least
      significant end. */
  function NatOr(a: nat, b: nat): (r: nat)
    ensures a <= r && b <= r && r <= a + b
    decreases a + b
  {
    if a == 0 then b
    else if b == 0 then a
    else 2 * NatOr(a / 2, b / 2) + (if a % 2 == 1 || b % 2 == 1 then 1 else 0)
  }

  /** Bitwise and of two natural numbers. */
  function NatAnd(a: nat, b: nat): (r: nat)
    ensures r <= a && r <= b
    decreases a + b
  {
    if a == 0 || b == 0 then 0
    else 2 * NatAnd(a / 2, b / 2) + (if a % 2 == 1 && b % 2 == 1 then 1 else 0)
  }

  /** C `a | b` on `int` operands. */
  function Or(a: int, b: int): (r: int)
    requires IsInt32(a) && IsInt32(b)
    ensures IsInt32(r)
    ensures Bits32(r) == NatOr(Bits32(a), Bits32(b))
  {
    Pow2Values();
    NatOrBelow(Bits32(a), Bits32(b), 32);
    FromBits32(NatOr(Bits32(a), Bits32(b)))
  }

  /** C `a & b` on `int` operands. */
  function And(a: int, b: int): (r: int)
    requires IsInt32(a) && IsInt32(b)
    ensures IsInt32(r)
    ensures Bits32(r) == NatAnd(Bits32(a), Bits32(b))
  {
    FromBits32(NatAnd(Bits32(a), Bits32(b)))
  }

  /** C `x << n` for a non-negative `x` whose result fits in `int`
      (anything else is undefined behaviour). C99 6.5.7 defines the value
      as `x` times 2^n. */
  function Shl(x: int, n: nat): (r: int)
    requires x >= 0 && IsInt32(x * Pow2(n))
    ensures IsInt32(r) && r >= 0
  {
    x * Pow2(n)
  }

  /** How `>>` treats a negative left operand: the C standard leaves the
      result implementation-defined. */
  datatype ShiftKind = Arithmetic | Logical

  /** C `x >> 4` on an `int` operand. The arithmetic kind replicates the
      sign bit (floor division by 16); the logical kind shifts zeros into
      the 32-bit pattern. */
  function Shr4(kind: ShiftKind, x: int): (r: int)
    requires IsInt32(x)
    ensures IsInt32(r)
    ensures x >= 0 || kind.Arithmetic? ==> r * 16 <= x < r * 16 + 16
  {
    match kind
    case Arithmetic => x / 16
    case Logical => FromBits32(Bits32(x) / 16)
  }

  // ---------------------------------------------------------------------
  // Division and remainder

  /** C `a / d`: the quotient truncated toward zero (C99 6.5.5). */
  function TruncDiv(a: int, d: int): (q: int)
    requires d > 0
    ensures a >= 0 ==> q * d <= a < q * d + d
    ensures a < 0 ==> q * d - d < a <= q * d
  {
    if a >= 0 then a / d else -((-a) / d)
  }

  /** C `a % d`: the remainder that goes with `TruncDiv`, carrying the sign
      of the dividend. */
  function TruncMod(a: int, d: int): (m: int)
    requires d > 0
    ensures TruncDiv(a, d) * d + m == a
    ensures a >= 0 ==> 0 <= m < d
    ensures a < 0 ==> -d < m <= 0
  {
    a - TruncDiv(a, d) * d
  }

  // ---------------------------------------------------------------------
  // Facts about the bitwise operators

  lemma {:induction false} NatOrBelow(a: nat, b: nat, n: nat)
    requires a < Pow2(n) && b < Pow2(n)
    ensures NatOr(a, b) < Pow2(n)
    decreases n
  {
    if a != 0 && b != 0 {
      NatOrBelow(a / 2, b / 2, n - 1);
    }
  }

  lemma {:induction false} NatOrCommutes(a: nat, b: nat)
    ensures NatOr(a, b) == NatOr(b, a)
    decreases a + b
  {
    if a != 0 && b != 0 {
      NatOrCommutes(a / 2, b / 2);
    }
  }

  /** Or-ing `m` into the bits above position `k` leaves the low `k` bits
      alone: `(hi:lo) | (m:0) == (hi|m : lo)`. */
  lemma {:induction false} NatOrAbove(hi: nat, lo: nat, m: nat, k: nat)
    requires lo < Pow2(k)
    ensures NatOr(hi * Pow2(k) + lo, m * Pow2(k)) == NatOr(hi, m) * Pow2(k) + lo
    decreases k
  {
    if k == 0 {
      assert Pow2(k) == 1;
    } else if m == 0 {
      assert NatOr(hi, 0) == hi;
    } else if hi == 0 && lo == 0 {
    } else {
      assert Pow2(k) == 2 * Pow2(k - 1);
      NatOrAbove(hi, lo / 2, m, k - 1);
      NatOrAboveStep(hi, lo, m, k);
    }
  }

  /** The inductive step of `NatOrAbove`. */
  lemma NatOrAboveStep(hi: nat, lo: nat, m: nat, k: nat)
    requires k > 0 && m > 0 && lo < Pow2(k)
    requires NatOr(hi * Pow2(k - 1) + lo / 2, m * Pow2(k - 1)) == NatOr(hi, m) * Pow2(k - 1) + lo / 2
    ensures NatOr(hi * Pow2(k) + lo, m * Pow2(k)) == NatOr(hi, m) * Pow2(k) + lo
  {
    var h := Pow2(k - 1);
    var z := NatOr(hi, m);
    assert Pow2(k) == 2 * h;
    var hh, mh, zh := hi * h, m * h, z * h;
    assert hi * Pow2(k) == 2 * hh && m * Pow2(k) == 2 * mh && z * Pow2(k) == 2 * zh by {
      MulTwice(hi, h);
      MulTwice(m, h);
      MulTwice(z, h);
    }
    assert mh > 0 by {
      MulPositive(m, h);
    }
    NatOrHalve(hi * Pow2(k) + lo, m * Pow2(k), hh + lo / 2, mh, lo % 2);
  }

  /** One unfolding of `NatOr` on two operands whose halves are known. */
  lemma NatOrHalve(x: nat, y: nat, xh: nat, yh: nat, bit: nat)
    requires bit < 2 && yh > 0
    requires x == 2 * xh + bit && y == 2 * yh
    ensures NatOr(x, y) == 2 * NatOr(xh, yh) + bit
  {
    assert x / 2 == xh && x % 2 == bit;
    assert y / 2 == yh && y % 2 == 0;
  }

  lemma MulTwice(a: nat, h: nat)
    ensures a * (2 * h) == 2 * (a * h)
  {
  }

  lemma MulPositive(a: nat, b: nat)
    requires a > 0 && b > 0
    ensures a * b > 0
  {
  }

  /** A block of `n` one bits absorbs every value below 2^n. */
  lemma {:induction false} NatOrOnes(n: nat, m: nat)
    requires m < Pow2(n)
    ensures NatOr(Pow2(n) - 1, m) == Pow2(n) - 1
  {
    if n > 0 && m > 0 {
      NatOrOnes(n - 1, m / 2);
    }
  }

  /** `x & 2^k` isolates bit `k` of `x`. */
  lemma {:induction false} NatAndBit(hi: nat, bit: nat, lo: nat, k: nat)
    requires bit < 2 && lo < Pow2(k)
    ensures NatAnd(hi * Pow2(k + 1) + bit * Pow2(k) + lo, Pow2(k)) == bit * Pow2(k)
    decreases k
  {
    if k == 0 {
      assert Pow2(1) == 2 && Pow2(0) == 1 && lo == 0;
      assert hi * Pow2(1) == 2 * hi && bit * Pow2(0) == bit;
      NatAndHalve(2 * hi + bit, 1, hi, 0, bit);
    } else {
      assert Pow2(k) == 2 * Pow2(k - 1);
      NatAndBit(hi, bit, lo / 2, k - 1);
      NatAndBitStep(hi, bit, lo, k);
    }
  }

  /** The inductive step of `NatAndBit`. */
  lemma NatAndBitStep(hi: nat, bit: nat, lo: nat, k: nat)
    requires k > 0 && bit < 2 && lo < Pow2(k)
    requires NatAnd(hi * Pow2(k) + bit * Pow2(k - 1) + lo / 2, Pow2(k - 1)) == bit * Pow2(k - 1)
    ensures NatAnd(hi * Pow2(k + 1) + bit * Pow2(k) + lo, Pow2(k)) == bit * Pow2(k)
  {
    var p, h := Pow2(k), Pow2(k - 1);
    assert p == 2 * h && Pow2(k + 1) == 2 * p;
    var hp, bh := hi * p, bit * h;
    assert hi * Pow2(k + 1) == 2 * hp && bit * p == 2 * bh by {
      MulTwice(hi, p);
      MulTwice(bit, h);
    }
    NatAndHalve(2 * hp + 2 * bh + lo, p, hp + bh + lo / 2, h, lo % 2);
  }

  /** One unfolding of `NatAnd` on two operands whose halves are known. */
  lemma NatAndHalve(x: nat, y: nat, xh: nat, yh: nat, bit: nat)
    requires bit < 2 && (y == 1 ==> yh == 0) && (y != 1 ==> y == 2 * yh && yh > 0)
    requires x == 2 * xh + bit
    ensures NatAnd(x, y) == 2 * NatAnd(xh, yh) + (if y == 1 then bit else 0)
  {
    assert x / 2 == xh && x % 2 == bit;
    if y != 1 {
      assert y / 2 == yh && y % 2 == 0;
    }
  }
}
