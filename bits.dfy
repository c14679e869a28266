/**
 * The integer operators the renderer relies on, over unbounded integers:
 * two's-complement bitwise AND, arithmetic shifts, and the truncating
 * division of Rust's `/` on signed integers. Dafny's own `/` and `%` are
 * Euclidean, so each operator is written out and characterised here.
 */
module Bits {

  const MinI32: int := -0x8000_0000
  const MaxI32: int := 0x7FFF_FFFF
  const U32Modulus: int := 0x1_0000_0000

  /** A value of Rust's `i32`. */
  type I32 = x: int | MinI32 <= x <= MaxI32

  /** A value of Rust's `u8`. */
  type U8 = x: int | 0 <= x < 256

  predicate InI32(x: int) {
    MinI32 <= x <= MaxI32
  }

  function Abs(x: int): nat {
    if x < 0 then -x else x
  }

  function Max(a: int, b: int): int {
    if a < b then b else a
  }

  function Min(a: int, b: int): int {
    if a < b then a else b
  }

  function Pow2(k: nat): (r: int)
    ensures r >= 1
  {
    if k == 0 then 1 else 2 * Pow2(k - 1)
  }

  /** `v << k` on a signed integer, when the result does not overflow. */
  function ShiftLeft(v: int, k: nat): int {
    v * Pow2(k)
  }

  /** `v >> k` on a signed integer: an arithmetic shift, which rounds toward minus infinity. */
  function ShiftRight(v: int, k: nat): (r: int)
    ensures r * Pow2(k) <= v < r * Pow2(k) + Pow2(k)
  {
    v / Pow2(k)
  }

  /**
   * `a & b` on two's-complement integers of unbounded width (every value
   * is sign-extended, as a Rust `i32` is when its bits are read out).
   */
  function BitAnd(a: int, b: int): int
    decreases Abs(a) + Abs(b)
  {
    if a == 0 || b == 0 then 0
    else if a == -1 then b
    else if b == -1 then a
    else 2 * BitAnd(a / 2, b / 2) + (if a % 2 == 1 && b % 2 == 1 then 1 else 0)
  }

  /** `a / b` on Rust signed integers: the quotient truncated toward zero. */
  function TruncDiv(a: int, b: int): (q: int)
    requires b != 0
    ensures Abs(a - q * b) < Abs(b)
    ensures a >= 0 ==> a - q * b >= 0
    ensures a <= 0 ==> a - q * b <= 0
  {
    var n := Abs(a) / Abs(b);
    TruncDivRemainder(a, b, n);
    if (a < 0) == (b < 0) then n else -n
  }

  /** The remainder left by the truncated quotient has the dividend's sign and is smaller than the divisor. */
  lemma TruncDivRemainder(a: int, b: int, n: int)
    requires b != 0 && n == Abs(a) / Abs(b)
    ensures var q := if (a < 0) == (b < 0) then n else -n;
      Abs(a - q * b) < Abs(b) && (a >= 0 ==> a - q * b >= 0) && (a <= 0 ==> a - q * b <= 0)
  {
    DivModFacts(Abs(a), Abs(b));
    var r := Abs(a) - n * Abs(b);
    assert 0 <= r < Abs(b);
    if a >= 0 && b > 0 {
      assert a - n * b == r;
    } else if a >= 0 {
      assert a - (-n) * b == r;
    } else if b < 0 {
      assert a - n * b == -r;
    } else {
      assert a - (-n) * b == -r;
    }
  }

  /** Truncating division never grows the dividend, halves it for divisors of size two or more, and is exact for divisors of size one. */
  lemma TruncDivShrinks(a: int, b: int)
    requires b != 0
    ensures Abs(TruncDiv(a, b)) <= Abs(a)
    ensures Abs(b) >= 2 ==> 2 * Abs(TruncDiv(a, b)) <= Abs(a)
    ensures b == 1 ==> TruncDiv(a, b) == a
    ensures b == -1 ==> TruncDiv(a, b) == -a
  {
    var aa: int, bb: int := Abs(a), Abs(b);
    var n: int := aa / bb;
    DivModFacts(aa, bb);
    MulMonotone(1, bb, n);
    if bb >= 2 {
      MulMonotone(2, bb, n);
    } else {
      DivModUnique(aa, 1, aa, 0);
    }
  }

  /** Truncating division by a positive divisor preserves order. */
  lemma TruncDivMonotone(a1: int, a2: int, b: int)
    requires a1 <= a2 && b > 0
    ensures TruncDiv(a1, b) <= TruncDiv(a2, b)
  {
    QuotientOrder(a1, a2, b, TruncDiv(a1, b), TruncDiv(a2, b));
  }

  /** Two quotients that leave remainders of the dividends' signs, smaller than b, are in the dividends' order. */
  lemma QuotientOrder(a1: int, a2: int, b: int, q1: int, q2: int)
    requires a1 <= a2 && b > 0
    requires Abs(a1 - q1 * b) < b && (a1 >= 0 ==> a1 - q1 * b >= 0) && (a1 <= 0 ==> a1 - q1 * b <= 0)
    requires Abs(a2 - q2 * b) < b && (a2 >= 0 ==> a2 - q2 * b >= 0) && (a2 <= 0 ==> a2 - q2 * b <= 0)
    ensures q1 <= q2
  {
    var p1, p2 := q1 * b, q2 * b;
    MultipleNearZero(q1, b);
    MultipleNearZero(q2, b);
    ProductsClose(a1, a2, b, p1, p2);
    if q1 > q2 {
      assert (q2 + 1) * b == p2 + b;
      MulMonotone(q2 + 1, q1, b);
    }
  }

  /** No multiple of b lies strictly between -b and b except zero. */
  lemma MultipleNearZero(q: int, b: int)
    requires b > 0
    ensures q * b < b ==> q * b <= 0
    ensures q * b > -b ==> q * b >= 0
  {
    MulSign(q, b);
    MulSign(-q, b);
  }

  /**
   * Multiples p1 and p2 of b, each within b of its dividend on the side of
   * zero, are less than b apart in the dividends' order.
   */
  lemma ProductsClose(a1: int, a2: int, b: int, p1: int, p2: int)
    requires a1 <= a2 && b > 0
    requires Abs(a1 - p1) < b && (a1 >= 0 ==> a1 - p1 >= 0) && (a1 <= 0 ==> a1 - p1 <= 0)
    requires Abs(a2 - p2) < b && (a2 >= 0 ==> a2 - p2 >= 0) && (a2 <= 0 ==> a2 - p2 <= 0)
    requires p1 < b ==> p1 <= 0
    requires p2 > -b ==> p2 >= 0
    ensures p1 < p2 + b
  {
  }

  lemma DivModFacts(a: nat, d: nat)
    requires d > 0
    ensures a == (a / d) * d + a % d && 0 <= a % d < d && a / d >= 0
  {
  }

  /** Quotient and remainder are unique: the basis of every div/mod fact below. */
  lemma DivModUnique(a: int, d: int, q: int, r: int)
    requires d > 0 && a == q * d + r && 0 <= r < d
    ensures a / d == q && a % d == r
  {
    var q', r' := a / d, a % d;
    assert (q - q') * d == r' - r;
    if q > q' {
      MulAtLeast(q - q', d);
    } else if q < q' {
      MulAtLeast(q' - q, d);
    }
  }

  /** Sign and size facts about a product with a positive factor. */
  lemma MulSign(a: int, p: int)
    requires p >= 1
    ensures a >= 1 ==> a * p >= p
    ensures a >= 0 ==> a <= a * p
    ensures a <= 0 ==> a * p <= a
  {
    if a >= 1 {
      MulAtLeast(a, p);
    }
  }

  /** The only multiple of d smaller than d in absolute value is zero. */
  lemma SmallMultipleIsZero(m: int, d: int)
    requires d != 0 && Abs(m * d) < Abs(d)
    ensures m == 0
  {
    assert Abs(m * d) == Abs(m) * Abs(d);
    MulSign(Abs(m), Abs(d));
  }

  lemma MulAtLeast(m: int, d: int)
    requires m >= 1 && d > 0
    ensures m * d >= d
  {
  }

  /** Multiplying by a non-negative factor preserves order. */
  lemma MulMonotone(x: int, y: int, z: int)
    requires x <= y && z >= 0
    ensures x * z <= y * z
  {
    assert y * z - x * z == (y - x) * z;
    if y - x >= 1 && z >= 1 {
      MulAtLeast(y - x, z);
    }
  }

  /** Splitting off the lowest bit: how `%` by a doubled power of two decomposes. */
  lemma ModDouble(a: int, p: int)
    requires p > 0
    ensures a % (2 * p) == 2 * ((a / 2) % p) + a % 2
    ensures a / (2 * p) == (a / 2) / p
  {
    var q := a / 2;
    var r := a % 2;
    var m := q / p;
    var s := q % p;
    assert a == 2 * q + r;
    assert q == m * p + s;
    assert a == m * (2 * p) + (2 * s + r);
    DivModUnique(a, 2 * p, m, 2 * s + r);
  }

  lemma {:induction false} BitAndLowMask(a: int, k: nat)
    ensures BitAnd(a, Pow2(k) - 1) == a % Pow2(k)
    decreases k
  {
    if k == 0 {
      DivModUnique(a, 1, a, 0);
    } else if a == 0 {
      DivModUnique(0, Pow2(k), 0, 0);
    } else if a == -1 {
      DivModUnique(-1, Pow2(k), -1, Pow2(k) - 1);
    } else {
      var p := Pow2(k - 1);
      var b := Pow2(k) - 1;
      assert b / 2 == p - 1 && b % 2 == 1 by {
        DivModUnique(b, 2, p - 1, 1);
      }
      BitAndLowMask(a / 2, k - 1);
      assert BitAnd(a, b) == 2 * BitAnd(a / 2, p - 1) + a % 2;
      ModDouble(a, p);
    }
  }

  lemma {:induction false} BitAndHighMask(a: int, k: nat)
    ensures BitAnd(a, -Pow2(k)) == a - a % Pow2(k)
    decreases k
  {
    if k == 0 {
      DivModUnique(a, 1, a, 0);
    } else if a == 0 {
      DivModUnique(0, Pow2(k), 0, 0);
    } else if a == -1 {
      DivModUnique(-1, Pow2(k), -1, Pow2(k) - 1);
    } else {
      var p := Pow2(k - 1);
      var b := -Pow2(k);
      assert b == -p * 2 + 0 && b < -1;
      DivModUnique(b, 2, -p, 0);
      assert BitAnd(a, b) == 2 * BitAnd(a / 2, -p);
      BitAndHighMask(a / 2, k - 1);
      ModDouble(a, p);
    }
  }

  /** Masking with a non-negative value yields a value between zero and the mask. */
  lemma {:induction false} BitAndNonNegative(a: int, b: int)
    requires b >= 0
    ensures 0 <= BitAnd(a, b) <= b
    decreases Abs(a) + Abs(b)
  {
    if a == 0 || b == 0 || a == -1 {
    } else {
      BitAndNonNegative(a / 2, b / 2);
    }
  }

  /** Masking with a multiple of 2^k clears the low k bits. */
  lemma {:induction false} BitAndKeepsMultiple(a: int, b: int, k: nat)
    requires b % Pow2(k) == 0
    ensures BitAnd(a, b) % Pow2(k) == 0
    decreases k
  {
    if k == 0 {
      DivModUnique(BitAnd(a, b), 1, BitAnd(a, b), 0);
    } else if a == 0 || b == 0 {
      DivModUnique(0, Pow2(k), 0, 0);
    } else if a == -1 {
    } else {
      var p := Pow2(k - 1);
      assert Pow2(k) == 2 * p;
      ModDouble(b, p);
      assert b % 2 == 0 && (b / 2) % p == 0;
      assert b != -1;
      var r' := BitAnd(a / 2, b / 2);
      assert BitAnd(a, b) == 2 * r';
      BitAndKeepsMultiple(a / 2, b / 2, k - 1);
      DivModUnique(2 * r', 2, r', 0);
      ModDouble(2 * r', p);
    }
  }

  /** The AND of two values that fit in n+1 two's-complement bits fits as well. */
  lemma {:induction false} BitAndFits(a: int, b: int, n: nat)
    requires -Pow2(n) <= a < Pow2(n) && -Pow2(n) <= b < Pow2(n)
    ensures -Pow2(n) <= BitAnd(a, b) < Pow2(n)
    decreases n
  {
    if a == 0 || b == 0 || a == -1 || b == -1 {
    } else {
      assert n > 0;
      var p := Pow2(n - 1);
      assert -p <= a / 2 < p && -p <= b / 2 < p;
      BitAndFits(a / 2, b / 2, n - 1);
    }
  }

  lemma I32FitsBits(a: int)
    requires InI32(a)
    ensures -Pow2(31) <= a < Pow2(31)
  {
    Pow2Value31();
  }

  lemma Pow2Value31()
    ensures Pow2(31) == 0x8000_0000
  {
    Pow2Value10();
    Pow2Split(10, 10);
    Pow2Split(20, 10);
    Pow2Split(30, 1);
  }

  lemma Pow2Value10()
    ensures Pow2(10) == 1024
  {
    assert Pow2(5) == 32;
  }

  lemma {:induction false} Pow2Split(a: nat, b: nat)
    ensures Pow2(a + b) == Pow2(a) * Pow2(b)
    decreases b
  {
    if b > 0 {
      Pow2Split(a, b - 1);
      assert Pow2(a + b) == 2 * Pow2(a + b - 1);
    }
  }
}
