/**
 * FixedInt10: a signed 32-bit integer read as value / 1024, i.e. ten
 * fractional bits. Every operator builds a new value from one integer
 * expression on the raw `value`; where the source would silently wrap
 * around on i32 overflow, the operator here requires that it does not.
 */
module FixedInt {
  import opened Bits

  const Exponent: nat := 10
  const Multiplier: int := 1024

  /** `!0 ^ (Multiplier - 1)`: every bit except the ten fractional ones. */
  const IntegerBits: int := -Multiplier
  /** `Multiplier - 1`: the ten fractional bits. */
  const FractionBits: int := Multiplier - 1

  datatype FixedInt10 = FixedInt10(value: I32)

  lemma MultiplierIsPow2()
    ensures Pow2(Exponent) == Multiplier
  {
    Pow2Value10();
  }

  /** Zeroes the fractional bits: the largest integer-valued FixedInt10 not above x. */
  function Floor(x: FixedInt10): (r: FixedInt10)
    ensures r.value % Multiplier == 0
    ensures r.value <= x.value < r.value + Multiplier
  {
    MultiplierIsPow2();
    BitAndHighMask(x.value, Exponent);
    FloorStaysInRange(x.value);
    FixedInt10(BitAnd(x.value, IntegerBits))
  }

  lemma FloorStaysInRange(v: I32)
    ensures InI32(v - v % Multiplier)
    ensures (v - v % Multiplier) % Multiplier == 0
  {
    DivModUnique(v - v % Multiplier, Multiplier, v / Multiplier, 0);
  }

  /** Keeps only the fractional bits: the distance from x down to its floor. */
  function Fract(x: FixedInt10): (r: FixedInt10)
    ensures 0 <= r.value < Multiplier
    ensures (x.value - r.value) % Multiplier == 0
  {
    MultiplierIsPow2();
    BitAndLowMask(x.value, Exponent);
    FloorStaysInRange(x.value);
    FixedInt10(BitAnd(x.value, FractionBits))
  }

  /** `i32::from`: an arithmetic shift right by ten, rounding toward minus infinity. */
  function ToI32(x: FixedInt10): (r: I32)
    ensures r * Multiplier <= x.value < r * Multiplier + Multiplier
  {
    MultiplierIsPow2();
    ShiftRight(x.value, Exponent)
  }

  /**
   * `usize::from`: the raw bits are reinterpreted as a u32 first, then
   * shifted right by ten, so a negative value gives a large index whose
   * low ten bits are those of its floor.
   */
  function ToUsize(x: FixedInt10): (r: nat)
    ensures r < U32Modulus / Multiplier
    ensures x.value >= 0 ==> r * Multiplier <= x.value < r * Multiplier + Multiplier
    ensures r % Multiplier == (x.value / Multiplier) % Multiplier
  {
    MultiplierIsPow2();
    UsizeLowBits(x.value);
    ShiftRight(x.value % U32Modulus, Exponent)
  }

  lemma UsizeLowBits(v: int)
    ensures (v % U32Modulus) / Multiplier % Multiplier == (v / Multiplier) % Multiplier
    ensures 0 <= (v % U32Modulus) / Multiplier < U32Modulus / Multiplier
    ensures v >= 0 && v < U32Modulus ==> v % U32Modulus == v
  {
    var m := v / U32Modulus;
    var w := v % U32Modulus;
    var a := w / Multiplier;
    var b := w % Multiplier;
    assert v == m * U32Modulus + a * Multiplier + b;
    assert v == (m * 0x40_0000 + a) * Multiplier + b;
    DivModUnique(v, Multiplier, m * 0x40_0000 + a, b);
    assert 0 <= a < 0x40_0000;
    DivModUnique(m * 0x40_0000 + a, Multiplier, m * 0x1000 + a / Multiplier, a % Multiplier);
    if 0 <= v < U32Modulus {
      DivModUnique(v, U32Modulus, 0, v);
    }
  }

  /** `u8::from`: shift right by ten, then keep the low eight bits (a truncating cast). */
  function ToU8(x: FixedInt10): (r: U8)
    ensures (ToI32(x) - r) % 256 == 0
    ensures 0 <= x.value < 256 * Multiplier ==> r == ToI32(x)
  {
    MultiplierIsPow2();
    var n := ShiftRight(x.value, Exponent);
    ByteCast(n);
    n % 256
  }

  lemma ByteCast(n: int)
    ensures (n - n % 256) % 256 == 0
    ensures 0 <= n < 256 ==> n % 256 == n
  {
    DivModUnique(n - n % 256, 256, n / 256, 0);
    if 0 <= n < 256 {
      DivModUnique(n, 256, 0, n);
    }
  }

  /** `FixedInt10::from(i32)`: a shift left by ten. */
  function FromI32(n: I32): (r: FixedInt10)
    requires InI32(n * Multiplier)
    ensures r.value == n * Multiplier
    ensures ToI32(r) == n
    ensures Fract(r).value == 0
  {
    MultiplierIsPow2();
    DivModUnique(n * Multiplier, Multiplier, n, 0);
    FixedInt10(ShiftLeft(n, Exponent))
  }

  /** `FixedInt10::from(u8)`: the byte widened to i32, then shifted left by ten. */
  function FromU8(b: U8): (r: FixedInt10)
    ensures 0 <= r.value <= 255 * Multiplier
    ensures ToU8(r) == b
  {
    MultiplierIsPow2();
    DivModUnique(b * Multiplier, Multiplier, b, 0);
    FixedInt10(ShiftLeft(b, Exponent))
  }

  /** `x << k`: the raw value shifted left; Rust refuses shift amounts outside 0..32. */
  function Shl(x: FixedInt10, k: int): (r: FixedInt10)
    requires 0 <= k < 32
    requires InI32(ShiftLeft(x.value, k))
    ensures r.value == x.value * Pow2(k)
  {
    FixedInt10(ShiftLeft(x.value, k))
  }

  /** `x >> k`: the raw value shifted right arithmetically. */
  function Shr(x: FixedInt10, k: int): (r: FixedInt10)
    requires 0 <= k < 32
    ensures r.value * Pow2(k) <= x.value < r.value * Pow2(k) + Pow2(k)
  {
    var v := ShiftRight(x.value, k);
    ShiftRightShrinks(x.value, k);
    FixedInt10(v)
  }

  lemma ShiftRightShrinks(v: I32, k: nat)
    ensures InI32(ShiftRight(v, k))
  {
    var r := ShiftRight(v, k);
    MulSign(r, Pow2(k));
    MulSign(r + 1, Pow2(k));
  }

  /** `x & k`: the raw value masked with `k << 10`, so the fractional bits are cleared. */
  function And(x: FixedInt10, k: I32): (r: FixedInt10)
    requires InI32(ShiftLeft(k, Exponent))
    ensures r.value % Multiplier == 0
    ensures k >= 0 ==> 0 <= r.value <= k * Multiplier
  {
    AndMaskFacts(x.value, k);
    FixedInt10(BitAnd(x.value, ShiftLeft(k, Exponent)))
  }

  lemma AndMaskFacts(v: I32, k: I32)
    requires InI32(ShiftLeft(k, Exponent))
    ensures InI32(BitAnd(v, ShiftLeft(k, Exponent)))
    ensures BitAnd(v, ShiftLeft(k, Exponent)) % Multiplier == 0
    ensures k >= 0 ==> 0 <= BitAnd(v, ShiftLeft(k, Exponent)) <= k * Multiplier
  {
    MultiplierIsPow2();
    var mask := ShiftLeft(k, Exponent);
    DivModUnique(mask, Multiplier, k, 0);
    BitAndKeepsMultiple(v, mask, Exponent);
    I32FitsBits(v);
    I32FitsBits(mask);
    BitAndFits(v, mask, 31);
    Pow2Value31();
    if k >= 0 {
      BitAndNonNegative(v, mask);
    }
  }

  /** `x / k` with an i32 divisor: Rust's truncating division of the raw value, no renormalisation. */
  function DivInt(x: FixedInt10, k: I32): (r: FixedInt10)
    requires k != 0
    requires !(x.value == MinI32 && k == -1)
    ensures Abs(x.value - r.value * k) < Abs(k)
    ensures x.value >= 0 ==> x.value - r.value * k >= 0
    ensures x.value <= 0 ==> x.value - r.value * k <= 0
  {
    var q := TruncDiv(x.value, k);
    TruncDivFits(x.value, k);
    FixedInt10(q)
  }

  lemma TruncDivFits(a: I32, b: I32)
    requires b != 0 && !(a == MinI32 && b == -1)
    ensures InI32(TruncDiv(a, b))
  {
    TruncDivShrinks(a, b);
  }

  /** Fixed plus fixed: the integer parts add, with a carry of at most one from the fractions. */
  function Add(x: FixedInt10, y: FixedInt10): (r: FixedInt10)
    requires InI32(x.value + y.value)
    ensures ToI32(x) + ToI32(y) <= ToI32(r) <= ToI32(x) + ToI32(y) + 1
  {
    FixedInt10(x.value + y.value)
  }

  /** `x + k` with an i32: k is first brought to fixed point. */
  function AddInt(x: FixedInt10, k: I32): (r: FixedInt10)
    requires InI32(ShiftLeft(k, Exponent))
    requires InI32(x.value + ShiftLeft(k, Exponent))
    ensures ToI32(r) == ToI32(x) + k
  {
    MultiplierIsPow2();
    FixedInt10(x.value + ShiftLeft(k, Exponent))
  }

  /** Fixed minus fixed: the integer parts subtract, with a borrow of at most one; adding y back undoes it. */
  function Sub(x: FixedInt10, y: FixedInt10): (r: FixedInt10)
    requires InI32(x.value - y.value)
    ensures ToI32(x) - ToI32(y) - 1 <= ToI32(r) <= ToI32(x) - ToI32(y)
    ensures InI32(r.value + y.value) && Add(r, y) == x
  {
    FixedInt10(x.value - y.value)
  }

  /** `x - k` with an i32: k is first brought to fixed point. */
  function SubInt(x: FixedInt10, k: I32): (r: FixedInt10)
    requires InI32(ShiftLeft(k, Exponent))
    requires InI32(x.value - ShiftLeft(k, Exponent))
    ensures ToI32(r) == ToI32(x) - k
  {
    MultiplierIsPow2();
    FixedInt10(x.value - ShiftLeft(k, Exponent))
  }

  /** Fixed times fixed: the product of the raw values carries twenty fractional bits, so it is shifted back by ten. */
  function Mul(x: FixedInt10, y: FixedInt10): (r: FixedInt10)
    requires InI32(x.value * y.value)
    ensures r.value * Multiplier <= x.value * y.value < r.value * Multiplier + Multiplier
  {
    MultiplierIsPow2();
    ShiftRightShrinks(x.value * y.value, Exponent);
    FixedInt10(ShiftRight(x.value * y.value, Exponent))
  }

  /** Fixed times u8: the raw value is scaled, no renormalisation, so dividing by the byte undoes it. */
  function MulU8(x: FixedInt10, b: U8): (r: FixedInt10)
    requires InI32(x.value * b)
    ensures b != 0 ==> DivInt(r, b) == x
  {
    DivUndoesScaling(x.value, b);
    FixedInt10(x.value * b)
  }

  /** Fixed times i32: the raw value is scaled, no renormalisation, so dividing by the integer undoes it. */
  function MulI32(x: FixedInt10, n: I32): (r: FixedInt10)
    requires InI32(x.value * n)
    ensures n != 0 ==> !(r.value == MinI32 && n == -1) && DivInt(r, n) == x
  {
    DivUndoesScaling(x.value, n);
    FixedInt10(x.value * n)
  }

  /** The derived `Ord`: the order of the raw values, which the integer parts follow. */
  predicate Le(x: FixedInt10, y: FixedInt10)
    ensures Le(x, y) ==> ToI32(x) <= ToI32(y)
    ensures !Le(x, y) ==> ToI32(y) <= ToI32(x)
  {
    x.value <= y.value
  }

  /** Truncating division of v * n by a non-zero n gives v back. */
  lemma DivUndoesScaling(v: I32, n: I32)
    requires InI32(v * n)
    ensures n != 0 ==> !(v * n == MinI32 && n == -1) && TruncDiv(v * n, n) == v
  {
    if n != 0 {
      var q := TruncDiv(v * n, n);
      assert v * n - q * n == (v - q) * n;
      SmallMultipleIsZero(v - q, n);
    }
  }

  // ---------------------------------------------------------------------
  // Properties
  // ---------------------------------------------------------------------

  /** A value is its floor plus its fractional part. */
  lemma FloorPlusFract(x: FixedInt10)
    ensures InI32(Floor(x).value + Fract(x).value)
    ensures Add(Floor(x), Fract(x)) == x
  {
    var f, g := Floor(x).value, Fract(x).value;
    DivModUnique(f, Multiplier, f / Multiplier, 0);
    DivModUnique(x.value, Multiplier, f / Multiplier, x.value - f);
    DivModUnique(x.value - g, Multiplier, (x.value - g) / Multiplier, 0);
    DivModUnique(x.value, Multiplier, (x.value - g) / Multiplier, g);
  }

  /** Floor is idempotent and leaves no fractional part; it does not change the integer part. */
  lemma FloorIdempotent(x: FixedInt10)
    ensures Floor(Floor(x)) == Floor(x)
    ensures Fract(Floor(x)).value == 0
    ensures ToI32(Floor(x)) == ToI32(x)
  {
    var f := Floor(x).value;
    var ff := Floor(Floor(x)).value;
    DivModUnique(f, Multiplier, f / Multiplier, 0);
    DivModUnique(ff, Multiplier, ff / Multiplier, 0);
    DivModUnique(f, Multiplier, ff / Multiplier, f - ff);
    var g := Fract(Floor(x)).value;
    DivModUnique(f - g, Multiplier, (f - g) / Multiplier, 0);
    DivModUnique(f, Multiplier, (f - g) / Multiplier, g);
    var n := ToI32(x);
    DivModUnique(x.value, Multiplier, n, x.value - n * Multiplier);
    DivModUnique(x.value, Multiplier, f / Multiplier, x.value - f);
    DivModUnique(f, Multiplier, ToI32(Floor(x)), f - ToI32(Floor(x)) * Multiplier);
  }

  /** Floor is monotone with respect to the derived order. */
  lemma FloorMonotone(x: FixedInt10, y: FixedInt10)
    requires Le(x, y)
    ensures Le(Floor(x), Floor(y))
  {
    WholeUnitsOrder(Floor(x).value, Floor(y).value, x.value, y.value);
  }

  /** Whole numbers of units just below two ordered values are ordered the same way. */
  lemma WholeUnitsOrder(a: int, b: int, v: int, w: int)
    requires a % Multiplier == 0 && b % Multiplier == 0
    requires a <= v < a + Multiplier && b <= w < b + Multiplier && v <= w
    ensures a <= b
  {
    assert a == (a / Multiplier) * Multiplier;
    assert b == (b / Multiplier) * Multiplier;
  }

  /** Integers survive the trip through fixed point. */
  lemma IntRoundTrip(n: I32)
    requires InI32(n * Multiplier)
    ensures ToI32(FromI32(n)) == n
    ensures FromI32(ToI32(FromI32(n))) == FromI32(n)
  {
  }

  /** Conversion to i32 rounds toward minus infinity, unlike the truncating division. */
  lemma ToI32RoundsDown()
    ensures ToI32(FixedInt10(-1)) == -1
    ensures ToI32(FixedInt10(-1024)) == -1
    ensures ToI32(FixedInt10(-1025)) == -2
    ensures DivInt(FixedInt10(-1), 2).value == 0
    ensures Shr(FixedInt10(-1), 1).value == -1
  {
  }

  /** Building from a byte is building from the same value as an i32. */
  lemma FromU8IsFromI32(b: U8)
    ensures InI32(b * Multiplier)
    ensures FromU8(b) == FromI32(b)
  {
  }

  /** Adding an integer k moves the integer part by k and keeps the fractional part. */
  lemma AddIntMovesIntegerPart(x: FixedInt10, k: I32)
    requires InI32(ShiftLeft(k, Exponent)) && InI32(x.value + ShiftLeft(k, Exponent))
    ensures ToI32(AddInt(x, k)) == ToI32(x) + k
    ensures Fract(AddInt(x, k)) == Fract(x)
  {
    MultiplierIsPow2();
    var y := AddInt(x, k);
    var n := ToI32(x);
    DivModUnique(x.value, Multiplier, n, x.value - n * Multiplier);
    DivModUnique(y.value, Multiplier, n + k, x.value - n * Multiplier);
    var m := ToI32(y);
    DivModUnique(y.value, Multiplier, m, y.value - m * Multiplier);
    var g, h := Fract(x).value, Fract(y).value;
    DivModUnique(x.value - g, Multiplier, (x.value - g) / Multiplier, 0);
    DivModUnique(x.value, Multiplier, (x.value - g) / Multiplier, g);
    DivModUnique(y.value - h, Multiplier, (y.value - h) / Multiplier, 0);
    DivModUnique(y.value, Multiplier, (y.value - h) / Multiplier, h);
  }

  /** Adding an integer is adding its fixed-point form. */
  lemma AddIntIsAddFixed(x: FixedInt10, k: I32)
    requires InI32(ShiftLeft(k, Exponent)) && InI32(x.value + ShiftLeft(k, Exponent))
    ensures InI32(k * Multiplier) && InI32(x.value + FromI32(k).value)
    ensures AddInt(x, k) == Add(x, FromI32(k))
  {
    MultiplierIsPow2();
  }

  /** Subtracting then adding the same integer gives the value back, and the other way round. */
  lemma SubIntAddIntRoundTrip(x: FixedInt10, k: I32)
    requires InI32(ShiftLeft(k, Exponent)) && InI32(x.value - ShiftLeft(k, Exponent))
    ensures InI32(SubInt(x, k).value + ShiftLeft(k, Exponent))
    ensures AddInt(SubInt(x, k), k) == x
  {
  }

  /** Fixed-by-fixed multiplication renormalises: integers multiply as integers. */
  lemma MulRenormalises(a: I32, b: I32)
    requires InI32(a * Multiplier) && InI32(b * Multiplier)
    requires InI32(a * Multiplier * (b * Multiplier))
    ensures InI32(a * b) && InI32(a * b * Multiplier)
    ensures Mul(FromI32(a), FromI32(b)) == FromI32(a * b)
  {
    MultiplierIsPow2();
    var p := a * Multiplier * (b * Multiplier);
    assert p == (a * b * Multiplier) * Multiplier;
    DivModUnique(p, Multiplier, a * b * Multiplier, 0);
    MulStaysInI32(a * b * Multiplier, Multiplier);
    MulStaysInI32(a * b, Multiplier);
  }

  lemma MulStaysInI32(n: int, m: int)
    requires m >= 1 && InI32(n * m)
    ensures InI32(n)
  {
    if n > 0 {
      assert n * m >= n;
    } else if n < 0 {
      assert n * m <= n;
    }
  }

  /** Multiplying by an i32 scales the raw value: the same as multiplying by its fixed-point form. */
  lemma MulI32IsMulByFixed(x: FixedInt10, n: I32)
    requires InI32(n * Multiplier) && InI32(x.value * (n * Multiplier))
    ensures InI32(x.value * n)
    ensures MulI32(x, n) == Mul(x, FromI32(n))
  {
    MultiplierIsPow2();
    var p := x.value * (n * Multiplier);
    assert p == (x.value * n) * Multiplier;
    DivModUnique(p, Multiplier, x.value * n, 0);
    MulStaysInI32(x.value * n, Multiplier);
  }

  /** Multiplying by a byte is multiplying by the same value as an i32. */
  lemma MulU8IsMulI32(x: FixedInt10, b: U8)
    requires InI32(x.value * b)
    ensures MulU8(x, b) == MulI32(x, b)
  {
  }

  /** Division by an integer that divides the raw value is undone by multiplying back. */
  lemma DivIntMulRoundTrip(x: FixedInt10, k: I32)
    requires k != 0 && !(x.value == MinI32 && k == -1)
    requires x.value % k == 0
    ensures InI32(DivInt(x, k).value * k)
    ensures MulI32(DivInt(x, k), k) == x
  {
    ExactQuotient(x.value, k, DivInt(x, k).value);
  }

  /** A quotient whose remainder is smaller than the divisor is exact when the division is. */
  lemma ExactQuotient(v: int, k: int, q: int)
    requires k != 0 && v % k == 0 && Abs(v - q * k) < Abs(k)
    ensures q * k == v
  {
    var c := v / k;
    assert v == k * c;
    assert v - q * k == (c - q) * k;
    SmallMultipleIsZero(c - q, k);
  }

  /** Shifting left and back right by the same amount is the identity when nothing overflows. */
  lemma ShlShrRoundTrip(x: FixedInt10, k: int)
    requires 0 <= k < 32
    requires InI32(ShiftLeft(x.value, k))
    ensures Shr(Shl(x, k), k) == x
  {
    DivModUnique(ShiftLeft(x.value, k), Pow2(k), x.value, 0);
  }

  /** The concrete values of the source's `operations` test. */
  lemma OperationsTestVectors()
    ensures ToI32(DivInt(FromI32(200), 10)) == 20
    ensures ToI32(MulI32(FromI32(200), 10)) == 2000
    ensures ToI32(AddInt(FromI32(200), 10)) == 210
    ensures ToI32(SubInt(FromI32(200), 10)) == 190
    ensures AddInt(SubInt(FromI32(200), 10), 10) == FromI32(200)
    ensures MulI32(DivInt(FromI32(200), 10), 10) == FromI32(200)
    ensures ToI32(Shl(FromI32(1), 1)) == 2 && ToI32(Shl(FromI32(1), 2)) == 4
    ensures Shr(Shl(FromI32(1), 2), 2) == FromI32(1)
    ensures ToI32(MulU8(FromU8(1), 8)) == 8
  {
    MultiplierIsPow2();
    DivModUnique(200 * 1024, 10, 20480, 0);
    assert Pow2(2) == 4;
  }

  /**
   * The integer assertions of the source's `equality` test: 200 + 20 is
   * 220, building 220 either way agrees, and 220 differs from 200.
   */
  lemma EqualityTestVectors()
    ensures AddInt(FromI32(200), 20) == FromI32(220)
    ensures FromI32(220) == FixedInt10(220 * Multiplier)
    ensures FromI32(220) != FromI32(200)
  {
    MultiplierIsPow2();
  }

  /** The concrete values of the source's `bits_manipulation` test, with 2.5 written as raw 2560. */
  lemma BitsManipulationTestVectors()
    ensures ToI32(Floor(FixedInt10(2560))) == 2
    ensures Fract(FixedInt10(2560)) == FixedInt10(512)
    ensures Floor(FixedInt10(2560)) == FromI32(2)
  {
    var x := FixedInt10(2560);
    DivModUnique(Floor(x).value, 1024, Floor(x).value / 1024, 0);
    DivModUnique(2560 - Fract(x).value, 1024, (2560 - Fract(x).value) / 1024, 0);
  }

  /** The shift and mask values of the same test. */
  lemma ShiftAndMaskTestVectors()
    ensures Shl(FixedInt10(2560), 1) == FromI32(5)
    ensures Shr(FixedInt10(2560), 1) == FixedInt10(1280)
    ensures And(FixedInt10(2560), 2) == FromI32(2)
  {
    MultiplierIsPow2();
    assert BitAnd(2560, 2048) == 2 * BitAnd(1280, 1024);
    assert BitAnd(1280, 1024) == 2 * BitAnd(640, 512);
    assert BitAnd(640, 512) == 2 * BitAnd(320, 256);
    assert BitAnd(320, 256) == 2 * BitAnd(160, 128);
    assert BitAnd(160, 128) == 2 * BitAnd(80, 64);
    assert BitAnd(80, 64) == 2 * BitAnd(40, 32);
    assert BitAnd(40, 32) == 2 * BitAnd(20, 16);
    assert BitAnd(20, 16) == 2 * BitAnd(10, 8);
    assert BitAnd(10, 8) == 2 * BitAnd(5, 4);
    assert BitAnd(5, 4) == 2 * BitAnd(2, 2);
    assert BitAnd(2, 2) == 2 * BitAnd(1, 1) && BitAnd(1, 1) == 1;
  }
}
