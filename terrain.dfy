/**
 * The terrain sample store: a height map of bytes and a colour texture,
 * both 1024 x 1024 and addressed with wrap-around, so the terrain tiles
 * the plane. Coordinates are FixedInt10 values; the grid cell of a
 * coordinate is its integer part modulo 1024, taken with bit masks.
 */
module Terrain {
  import opened Bits
  import opened FixedInt

  /** The hard-coded `width()`: the side of both grids, used for addressing. */
  const Size: nat := 1024
  const WrapMask: int := 1023
  const MaxSample: int := 255 * Multiplier

  datatype Rgba = Rgba(r: U8, g: U8, b: U8, a: U8)

  /** The three colour channels a sampler blends. */
  datatype Band = Red | Green | Blue

  function BandOf(c: Rgba, band: Band): U8 {
    match band
    case Red => c.r
    case Green => c.g
    case Blue => c.b
  }

  datatype RgbaFixed = RgbaFixed(r: FixedInt10, g: FixedInt10, b: FixedInt10, a: FixedInt10)

  /**
   * A decoded grey bitmap. Its own width and height are carried along but
   * never used for addressing: only `Size` is.
   */
  datatype HeightMap = HeightMap(width: nat, height: nat, buffer: seq<U8>)

  datatype Texture = Texture(width: nat, height: nat, buffer: seq<Rgba>)

  predicate ValidHeightMap(m: HeightMap) {
    |m.buffer| == Size * Size
  }

  predicate ValidTexture(t: Texture) {
    |t.buffer| == Size * Size
  }

  /** The grid cell of a coordinate, stated with Euclidean arithmetic: its integer part modulo the grid size. */
  function GridCell(c: FixedInt10): nat {
    (c.value / Multiplier) % Size
  }

  /** `usize::from(c.floor()) & 1023`: the wrapped grid index of a coordinate. */
  function Wrap(c: FixedInt10): (r: nat)
    ensures r < Size
    ensures r == GridCell(c)
  {
    WrapIsGridCell(c);
    BitAnd(ToUsize(Floor(c)), WrapMask)
  }

  lemma WrapIsGridCell(c: FixedInt10)
    ensures BitAnd(ToUsize(Floor(c)), WrapMask) == GridCell(c)
  {
    MultiplierIsPow2();
    BitAndLowMask(ToUsize(Floor(c)), Exponent);
    FloorKeepsIntegerPart(c);
  }

  lemma FloorKeepsIntegerPart(c: FixedInt10)
    ensures Floor(c).value / Multiplier == c.value / Multiplier
  {
    var f := Floor(c).value;
    DivModUnique(f, Multiplier, f / Multiplier, 0);
    DivModUnique(c.value, Multiplier, f / Multiplier, c.value - f);
  }

  /** `(i0 + 1) & 1023`: the next cell, wrapping from the last back to the first. */
  function Successor(i0: nat): (r: nat)
    requires i0 < Size
    ensures r == (i0 + 1) % Size
  {
    MultiplierIsPow2();
    BitAndLowMask(i0 + 1, Exponent);
    BitAnd(i0 + 1, WrapMask)
  }

  /** `i + width() * j`, always inside the buffer. */
  function Index(i: nat, j: nat): (r: nat)
    requires i < Size && j < Size
    ensures r < Size * Size
  {
    i + Size * j
  }

  /** `HeightMap::get`: the sample of the cell under the coordinates, as FixedInt10. */
  function GetHeight(m: HeightMap, i: FixedInt10, j: FixedInt10): (r: FixedInt10)
    requires ValidHeightMap(m)
    ensures r == FromU8(m.buffer[GridCell(i) + Size * GridCell(j)])
  {
    var i := Wrap(i);
    var j := Wrap(j);
    FromU8(m.buffer[Index(i, j)])
  }

  /** One weighted corner, `f * a * b`: each fixed-point product renormalised in turn. */
  function Weighted(f: FixedInt10, a: FixedInt10, b: FixedInt10): (r: FixedInt10)
    requires 0 <= f.value <= MaxSample && 0 <= a.value <= Multiplier && 0 <= b.value <= Multiplier
    ensures r.value == TermOf(f.value, a.value, b.value)
    ensures 0 <= r.value <= f.value
    ensures a.value == Multiplier && b.value == Multiplier ==> r == f
    ensures a.value == 0 || b.value == 0 ==> r.value == 0
  {
    WeightedFacts(f.value, a.value, b.value);
    Mul(Mul(f, a), b)
  }

  /** The raw value of one weighted corner. */
  function TermOf(f: int, a: int, b: int): int {
    ShiftRight(ShiftRight(f * a, Exponent) * b, Exponent)
  }

  lemma WeightedFacts(f: int, a: int, b: int)
    requires 0 <= f <= MaxSample && 0 <= a <= Multiplier && 0 <= b <= Multiplier
    ensures InI32(f * a) && 0 <= ShiftRight(f * a, Exponent) <= f
    ensures InI32(ShiftRight(f * a, Exponent) * b)
    ensures 0 <= TermOf(f, a, b) <= f
    ensures TermOf(f, a, b) * (Multiplier * Multiplier) <= f * (a * b)
    ensures a == Multiplier && b == Multiplier ==> TermOf(f, a, b) == f
    ensures a == 0 || b == 0 ==> TermOf(f, a, b) == 0
  {
    var t1 := ShiftRight(f * a, Exponent);
    ScaleDown(f, a);
    ScaleDown(t1, b);
    var t := ShiftRight(t1 * b, Exponent);
    MulMonotone(t * Multiplier, t1 * b, Multiplier);
    MulMonotone(t1 * Multiplier, f * a, b);
    assert (t1 * b) * Multiplier == (t1 * Multiplier) * b;
    assert (f * a) * b == f * (a * b);
  }

  /** One fixed-point product by a weight between zero and one: no overflow, no growth, exact at the ends. */
  lemma ScaleDown(x: int, a: int)
    requires 0 <= x <= MaxSample && 0 <= a <= Multiplier
    ensures InI32(x * a)
    ensures 0 <= ShiftRight(x * a, Exponent) <= x
    ensures ShiftRight(x * a, Exponent) * Multiplier <= x * a
    ensures a == Multiplier ==> ShiftRight(x * a, Exponent) == x
    ensures a == 0 ==> ShiftRight(x * a, Exponent) == 0
  {
    MultiplierIsPow2();
    MulMonotone(0, a, x);
    MulMonotone(a, Multiplier, x);
    var t := ShiftRight(x * a, Exponent);
    assert t * Multiplier <= x * a < t * Multiplier + Multiplier;
    if a == Multiplier {
      DivModUnique(x * a, Multiplier, x, 0);
    }
    if a == 0 {
      DivModUnique(0, Multiplier, 0, 0);
    }
  }

  /**
   * Bilinear blend of four corners with weights (1-i)(1-j), i(1-j),
   * (1-i)j and ij, summed in that order.
   */
  function Bilinear(f00: FixedInt10, f10: FixedInt10, f01: FixedInt10, f11: FixedInt10,
                    i: FixedInt10, j: FixedInt10): (r: FixedInt10)
    requires 0 <= f00.value <= MaxSample && 0 <= f10.value <= MaxSample
    requires 0 <= f01.value <= MaxSample && 0 <= f11.value <= MaxSample
    requires 0 <= i.value < Multiplier && 0 <= j.value < Multiplier
    ensures r.value == BlendSum(f00.value, f10.value, f01.value, f11.value, i.value, j.value)
    ensures 0 <= r.value <= Max(Max(f00.value, f10.value), Max(f01.value, f11.value))
  {
    MultiplierIsPow2();
    // `FixedInt10::from(1) - i`: one is the raw value Multiplier.
    var ic := FixedInt10(Multiplier - i.value);
    var jc := FixedInt10(Multiplier - j.value);
    var w00 := Weighted(f00, ic, jc);
    var w10 := Weighted(f10, i, jc);
    var w01 := Weighted(f01, ic, j);
    var w11 := Weighted(f11, i, j);
    BlendBound(f00.value, f10.value, f01.value, f11.value, i.value, j.value, ic.value, jc.value,
               w00.value, w10.value, w01.value, w11.value);
    var r := Add(Add(Add(w00, w10), w01), w11);
    assert r.value == w00.value + w10.value + w01.value + w11.value;
    r
  }

  /** The blend on raw values: the four renormalised terms with complementary weights. */
  function BlendSum(f00: int, f10: int, f01: int, f11: int, i: int, j: int): int {
    TermOf(f00, Multiplier - i, Multiplier - j) + TermOf(f10, i, Multiplier - j)
      + TermOf(f01, Multiplier - i, j) + TermOf(f11, i, j)
  }

  /** At a grid point the weights are one for the nearest corner and zero elsewhere. */
  lemma BilinearAtGridPoint(f00: FixedInt10, f10: FixedInt10, f01: FixedInt10, f11: FixedInt10,
                            i: FixedInt10, j: FixedInt10)
    requires 0 <= f00.value <= MaxSample && 0 <= f10.value <= MaxSample
    requires 0 <= f01.value <= MaxSample && 0 <= f11.value <= MaxSample
    requires i.value == 0 && j.value == 0
    ensures Bilinear(f00, f10, f01, f11, i, j) == f00
  {
    var r := Bilinear(f00, f10, f01, f11, i, j);
    WeightedFacts(f00.value, Multiplier, Multiplier);
    WeightedFacts(f10.value, 0, Multiplier);
    WeightedFacts(f01.value, Multiplier, 0);
    WeightedFacts(f11.value, 0, 0);
    assert r.value == f00.value;
  }

  lemma BlendBound(f00: int, f10: int, f01: int, f11: int, i: int, j: int, ic: int, jc: int,
                   w00: int, w10: int, w01: int, w11: int)
    requires 0 <= f00 <= MaxSample && 0 <= f10 <= MaxSample && 0 <= f01 <= MaxSample && 0 <= f11 <= MaxSample
    requires 0 <= i < Multiplier && 0 <= j < Multiplier
    requires ic == Multiplier - i && jc == Multiplier - j
    requires w00 == TermOf(f00, ic, jc) && w10 == TermOf(f10, i, jc)
    requires w01 == TermOf(f01, ic, j) && w11 == TermOf(f11, i, j)
    ensures 0 <= w00 + w10 + w01 + w11 <= Max(Max(f00, f10), Max(f01, f11))
    ensures i == 0 && j == 0 ==> w00 + w10 + w01 + w11 == f00
  {
    WeightedFacts(f00, ic, jc);
    WeightedFacts(f10, i, jc);
    WeightedFacts(f01, ic, j);
    WeightedFacts(f11, i, j);
    WeightsSumToOne(Max(Max(f00, f10), Max(f01, f11)), f00, f10, f01, f11, i, j, ic, jc, w00, w10, w01, w11);
  }

  /** The four weights sum to one, so the weighted terms sum to at most the largest corner. */
  lemma WeightsSumToOne(top: int, f00: int, f10: int, f01: int, f11: int,
                        i: int, j: int, ic: int, jc: int, t00: int, t10: int, t01: int, t11: int)
    requires f00 <= top && f10 <= top && f01 <= top && f11 <= top
    requires 0 <= i <= Multiplier && 0 <= j <= Multiplier
    requires ic == Multiplier - i && jc == Multiplier - j
    requires t00 * (Multiplier * Multiplier) <= f00 * (ic * jc)
    requires t10 * (Multiplier * Multiplier) <= f10 * (i * jc)
    requires t01 * (Multiplier * Multiplier) <= f01 * (ic * j)
    requires t11 * (Multiplier * Multiplier) <= f11 * (i * j)
    ensures t00 + t10 + t01 + t11 <= top
  {
    MulMonotone(0, ic, jc);
    MulMonotone(0, i, jc);
    MulMonotone(0, ic, j);
    MulMonotone(0, i, j);
    MulMonotone(f00, top, ic * jc);
    MulMonotone(f10, top, i * jc);
    MulMonotone(f01, top, ic * j);
    MulMonotone(f11, top, i * j);
    assert ic * jc + i * jc + ic * j + i * j == Multiplier * Multiplier;
    assert top * (ic * jc) + top * (i * jc) + top * (ic * j) + top * (i * j)
        == top * (Multiplier * Multiplier);
  }

  /** `HeightMap::get_interpolate`: the bilinear blend of the cell under the coordinates and its wrapped neighbours. */
  function GetHeightInterpolated(m: HeightMap, i: FixedInt10, j: FixedInt10): (r: FixedInt10)
    requires ValidHeightMap(m)
    ensures 0 <= r.value <= MaxSample
  {
    var i0 := Wrap(i);
    var i1 := Successor(i0);
    var fi := Fract(i);
    var j0 := Wrap(j);
    var j1 := Successor(j0);
    var fj := Fract(j);
    Bilinear(FromU8(m.buffer[Index(i0, j0)]), FromU8(m.buffer[Index(i1, j0)]),
             FromU8(m.buffer[Index(i0, j1)]), FromU8(m.buffer[Index(i1, j1)]), fi, fj)
  }

  /** `Texture::get`: the texel of the cell under the coordinates (no floor taken; the shift discards the fraction). */
  function GetTexel(t: Texture, i: FixedInt10, j: FixedInt10): (r: Rgba)
    requires ValidTexture(t)
    ensures r == t.buffer[GridCell(i) + Size * GridCell(j)]
  {
    MultiplierIsPow2();
    BitAndLowMask(ToUsize(i), Exponent);
    BitAndLowMask(ToUsize(j), Exponent);
    var i := BitAnd(ToUsize(i), WrapMask);
    var j := BitAnd(ToUsize(j), WrapMask);
    t.buffer[Index(i, j)]
  }

  /** `Texture::u8_to_fixed_int_rgb`: every channel, alpha included, brought to fixed point. */
  function ToFixedRgba(c: Rgba): (r: RgbaFixed)
    ensures ToU8(r.r) == c.r && ToU8(r.g) == c.g && ToU8(r.b) == c.b && ToU8(r.a) == c.a
    ensures 0 <= r.r.value <= MaxSample && 0 <= r.g.value <= MaxSample && 0 <= r.b.value <= MaxSample
  {
    RgbaFixed(FromU8(c.r), FromU8(c.g), FromU8(c.b), FromU8(c.a))
  }

  /** The cell `d` steps (zero or one) past the cell under a coordinate, as the samplers compute it. */
  function Near(c: FixedInt10, d: nat): (r: nat)
    requires d <= 1
    ensures r < Size
    ensures d == 0 ==> r == GridCell(c)
    ensures d == 1 ==> r == (GridCell(c) + 1) % Size
  {
    if d == 0 then Wrap(c) else Successor(Wrap(c))
  }

  /** The texel `di`, `dj` cells to the right of and below the cell under the coordinates, wrapping. */
  function Corner(t: Texture, i: FixedInt10, j: FixedInt10, di: nat, dj: nat): Rgba
    requires ValidTexture(t) && di <= 1 && dj <= 1
  {
    t.buffer[Index(Near(i, di), Near(j, dj))]
  }

  /**
   * `Texture::get_interpolate`: red, green and blue are blended with the
   * bilinear weights; alpha is copied from the cell under the coordinates.
   */
  function GetTexelInterpolated(t: Texture, i: FixedInt10, j: FixedInt10): (r: Rgba)
    requires ValidTexture(t)
    ensures r.a == Corner(t, i, j, 0, 0).a
    ensures r.r <= Max(Max(Corner(t, i, j, 0, 0).r, Corner(t, i, j, 1, 0).r), Max(Corner(t, i, j, 0, 1).r, Corner(t, i, j, 1, 1).r))
    ensures r.g <= Max(Max(Corner(t, i, j, 0, 0).g, Corner(t, i, j, 1, 0).g), Max(Corner(t, i, j, 0, 1).g, Corner(t, i, j, 1, 1).g))
    ensures r.b <= Max(Max(Corner(t, i, j, 0, 0).b, Corner(t, i, j, 1, 0).b), Max(Corner(t, i, j, 0, 1).b, Corner(t, i, j, 1, 1).b))
  {
    var fi := Fract(i);
    var fj := Fract(j);
    var f00 := ToFixedRgba(Corner(t, i, j, 0, 0));
    var f10 := ToFixedRgba(Corner(t, i, j, 1, 0));
    var f01 := ToFixedRgba(Corner(t, i, j, 0, 1));
    var f11 := ToFixedRgba(Corner(t, i, j, 1, 1));
    Rgba(BlendChannel(f00.r, f10.r, f01.r, f11.r, fi, fj),
         BlendChannel(f00.g, f10.g, f01.g, f11.g, fi, fj),
         BlendChannel(f00.b, f10.b, f01.b, f11.b, fi, fj),
         ToU8(f00.a))
  }

  /** One colour channel of a texture, laid out as a height map. */
  function BandMap(t: Texture, band: Band): (m: HeightMap)
    requires ValidTexture(t)
    ensures ValidHeightMap(m)
  {
    HeightMap(t.width, t.height, seq(Size * Size, k requires 0 <= k < Size * Size => BandOf(t.buffer[k], band)))
  }

  /**
   * Each colour channel of `Texture::get_interpolate` is `HeightMap::get_interpolate`
   * run over that channel's bytes, cast back to a byte: the same corners and the same weights.
   */
  lemma TexelChannelIsHeightBlend(t: Texture, i: FixedInt10, j: FixedInt10, band: Band)
    requires ValidTexture(t)
    ensures BandOf(GetTexelInterpolated(t, i, j), band) == ToU8(GetHeightInterpolated(BandMap(t, band), i, j))
  {
  }

  /** `Texture::get` and the sampler's first corner read the same cell, although only one of them takes the floor. */
  lemma GetTexelIsFirstCorner(t: Texture, i: FixedInt10, j: FixedInt10)
    requires ValidTexture(t)
    ensures GetTexel(t, i, j) == Corner(t, i, j, 0, 0)
  {
  }

  /** One colour channel: the bilinear blend, cast back to a byte. */
  function BlendChannel(c00: FixedInt10, c10: FixedInt10, c01: FixedInt10, c11: FixedInt10,
                        fi: FixedInt10, fj: FixedInt10): (r: U8)
    requires 0 <= c00.value <= MaxSample && 0 <= c10.value <= MaxSample
    requires 0 <= c01.value <= MaxSample && 0 <= c11.value <= MaxSample
    requires 0 <= fi.value < Multiplier && 0 <= fj.value < Multiplier
    ensures r <= Max(Max(ToU8(c00), ToU8(c10)), Max(ToU8(c01), ToU8(c11)))
  {
    var v := Bilinear(c00, c10, c01, c11, fi, fj);
    BlendedByte(v, c00, c10, c01, c11);
    ToU8(v)
  }

  /** A blend no larger than its largest corner converts back to a byte no larger than that corner's byte. */
  lemma BlendedByte(v: FixedInt10, f00: FixedInt10, f10: FixedInt10, f01: FixedInt10, f11: FixedInt10)
    requires 0 <= f00.value <= MaxSample && 0 <= f10.value <= MaxSample
    requires 0 <= f01.value <= MaxSample && 0 <= f11.value <= MaxSample
    requires 0 <= v.value <= Max(Max(f00.value, f10.value), Max(f01.value, f11.value))
    ensures ToU8(v) <= Max(Max(ToU8(f00), ToU8(f10)), Max(ToU8(f01), ToU8(f11)))
  {
    ToI32Monotone(v, f00);
    ToI32Monotone(v, f10);
    ToI32Monotone(v, f01);
    ToI32Monotone(v, f11);
  }

  lemma ToI32Monotone(x: FixedInt10, y: FixedInt10)
    ensures x.value <= y.value ==> ToI32(x) <= ToI32(y)
  {
  }

  // ---------------------------------------------------------------------
  // Loading
  // ---------------------------------------------------------------------

  /** What the image decoder hands back; decoding itself is outside the model. */
  datatype Image =
    | GreyImage(width: nat, height: nat, grey: seq<U8>)
    | RgbaImage(width: nat, height: nat, pixels: seq<Rgba>)
    | OtherImage

  datatype Decoded = DecodeFailed | Decoded(image: Image)

  datatype LoadError = CannotOpen | WrongSize(width: nat, height: nat) | WrongFormat

  datatype Result<T> = Ok(value: T) | Err(error: LoadError)

  /** The decoder's promise: a bitmap holds width x height pixels. */
  predicate DecoderKeepsSize(d: Decoded) {
    d.Decoded? ==>
      match d.image
      case GreyImage(w, h, grey) => |grey| == w * h
      case RgbaImage(w, h, pixels) => |pixels| == w * h
      case OtherImage => true
  }

  /** `HeightMap::from_file`: only an 8-bit grey image of exactly 1024 x 1024 is accepted. */
  function HeightMapFromFile(d: Decoded): (r: Result<HeightMap>)
    requires DecoderKeepsSize(d)
    ensures r.Ok? <==> d.Decoded? && d.image.GreyImage? && d.image.width == Size && d.image.height == Size
    ensures r.Ok? ==> ValidHeightMap(r.value) && r.value.buffer == d.image.grey
    ensures d.DecodeFailed? ==> r == Err(CannotOpen)
    ensures d.Decoded? && !d.image.GreyImage? ==> r == Err(WrongFormat)
    ensures d.Decoded? && d.image.GreyImage? && !r.Ok? ==> r == Err(WrongSize(d.image.width, d.image.height))
  {
    match d
    case DecodeFailed => Err(CannotOpen)
    case Decoded(image) =>
      match image
      case GreyImage(w, h, grey) =>
        if (w, h) != (Size, Size) then Err(WrongSize(w, h)) else Ok(HeightMap(w, h, grey))
      case _ => Err(WrongFormat)
  }

  /** `Texture::from_file`: only an RGBA image of exactly 1024 x 1024 is accepted. */
  function TextureFromFile(d: Decoded): (r: Result<Texture>)
    requires DecoderKeepsSize(d)
    ensures r.Ok? <==> d.Decoded? && d.image.RgbaImage? && d.image.width == Size && d.image.height == Size
    ensures r.Ok? ==> ValidTexture(r.value) && r.value.buffer == d.image.pixels
    ensures d.DecodeFailed? ==> r == Err(CannotOpen)
    ensures d.Decoded? && !d.image.RgbaImage? ==> r == Err(WrongFormat)
    ensures d.Decoded? && d.image.RgbaImage? && !r.Ok? ==> r == Err(WrongSize(d.image.width, d.image.height))
  {
    match d
    case DecodeFailed => Err(CannotOpen)
    case Decoded(image) =>
      match image
      case RgbaImage(w, h, pixels) =>
        if (w, h) != (Size, Size) then Err(WrongSize(w, h)) else Ok(Texture(w, h, pixels))
      case _ => Err(WrongFormat)
  }

  // ---------------------------------------------------------------------
  // Properties
  // ---------------------------------------------------------------------

  /** Moving a coordinate by a whole grid width lands on the same cell. */
  lemma GridCellPeriodic(c: FixedInt10)
    requires InI32(c.value + Size * Multiplier)
    ensures InI32(ShiftLeft(Size, Exponent)) && InI32(c.value + ShiftLeft(Size, Exponent))
    ensures GridCell(AddInt(c, Size)) == GridCell(c)
  {
    MultiplierIsPow2();
    var q := c.value / Multiplier;
    DivModUnique(c.value + Size * Multiplier, Multiplier, q + Size, c.value % Multiplier);
    DivModUnique(q + Size, Size, q / Size + 1, q % Size);
  }

  /** `get` is periodic with period 1024 in each coordinate. */
  lemma GetHeightPeriodic(m: HeightMap, i: FixedInt10, j: FixedInt10)
    requires ValidHeightMap(m)
    requires InI32(i.value + Size * Multiplier) && InI32(j.value + Size * Multiplier)
    ensures InI32(ShiftLeft(Size, Exponent))
    ensures InI32(i.value + ShiftLeft(Size, Exponent)) && InI32(j.value + ShiftLeft(Size, Exponent))
    ensures GetHeight(m, AddInt(i, Size), j) == GetHeight(m, i, j)
    ensures GetHeight(m, i, AddInt(j, Size)) == GetHeight(m, i, j)
  {
    GridCellPeriodic(i);
    GridCellPeriodic(j);
  }

  /** `get_interpolate` is periodic too, in each coordinate: the weights and all four corners repeat. */
  lemma GetHeightInterpolatedPeriodic(m: HeightMap, i: FixedInt10, j: FixedInt10)
    requires ValidHeightMap(m)
    requires InI32(i.value + Size * Multiplier)
    ensures InI32(ShiftLeft(Size, Exponent)) && InI32(i.value + ShiftLeft(Size, Exponent))
    ensures GetHeightInterpolated(m, AddInt(i, Size), j) == GetHeightInterpolated(m, i, j)
    ensures InI32(j.value + Size * Multiplier) ==>
              InI32(j.value + ShiftLeft(Size, Exponent)) &&
              GetHeightInterpolated(m, i, AddInt(j, Size)) == GetHeightInterpolated(m, i, j)
  {
    GridCellPeriodic(i);
    AddIntMovesIntegerPart(i, Size);
    if InI32(j.value + Size * Multiplier) {
      GridCellPeriodic(j);
      AddIntMovesIntegerPart(j, Size);
    }
  }

  /** At grid points the weights collapse: interpolation returns the stored sample. */
  lemma InterpolatedAtGridPoints(m: HeightMap, i: FixedInt10, j: FixedInt10)
    requires ValidHeightMap(m)
    requires Fract(i).value == 0 && Fract(j).value == 0
    ensures GetHeightInterpolated(m, i, j) == GetHeight(m, i, j)
  {
    var i0 := Wrap(i);
    var i1 := Successor(i0);
    var j0 := Wrap(j);
    var j1 := Successor(j0);
    var f00 := FromU8(m.buffer[Index(i0, j0)]);
    BilinearAtGridPoint(f00, FromU8(m.buffer[Index(i1, j0)]),
      FromU8(m.buffer[Index(i0, j1)]), FromU8(m.buffer[Index(i1, j1)]), Fract(i), Fract(j));
    assert GetHeight(m, i, j) == f00;
  }

  /** At a grid point a blended channel is the corner's own byte. */
  lemma BlendChannelAtGridPoint(c00: FixedInt10, c10: FixedInt10, c01: FixedInt10, c11: FixedInt10,
                                fi: FixedInt10, fj: FixedInt10)
    requires 0 <= c00.value <= MaxSample && 0 <= c10.value <= MaxSample
    requires 0 <= c01.value <= MaxSample && 0 <= c11.value <= MaxSample
    requires fi.value == 0 && fj.value == 0
    ensures BlendChannel(c00, c10, c01, c11, fi, fj) == ToU8(c00)
  {
    BilinearAtGridPoint(c00, c10, c01, c11, fi, fj);
  }

  /** The same holds for the texture: at grid points each colour channel is the stored texel's (alpha always is). */
  lemma TexelInterpolatedAtGridPoints(t: Texture, i: FixedInt10, j: FixedInt10, band: Band)
    requires ValidTexture(t)
    requires Fract(i).value == 0 && Fract(j).value == 0
    ensures BandOf(GetTexelInterpolated(t, i, j), band) == BandOf(GetTexel(t, i, j), band)
  {
    GetTexelIsFirstCorner(t, i, j);
    var f00 := ToFixedRgba(Corner(t, i, j, 0, 0));
    var f10 := ToFixedRgba(Corner(t, i, j, 1, 0));
    var f01 := ToFixedRgba(Corner(t, i, j, 0, 1));
    var f11 := ToFixedRgba(Corner(t, i, j, 1, 1));
    match band
    case Red => BlendChannelAtGridPoint(f00.r, f10.r, f01.r, f11.r, Fract(i), Fract(j));
    case Green => BlendChannelAtGridPoint(f00.g, f10.g, f01.g, f11.g, Fract(i), Fract(j));
    case Blue => BlendChannelAtGridPoint(f00.b, f10.b, f01.b, f11.b, Fract(i), Fract(j));
  }

  /** Every address the samplers form is a valid buffer index, whatever the sign of the coordinates. */
  lemma AddressesInBounds(i: FixedInt10, j: FixedInt10)
    ensures Index(Wrap(i), Wrap(j)) < Size * Size
    ensures Index(Successor(Wrap(i)), Successor(Wrap(j))) < Size * Size
    ensures Wrap(i) == GridCell(i) && Successor(Wrap(i)) == (GridCell(i) + 1) % Size
  {
  }

  // ---------------------------------------------------------------------
  // The source's test vectors
  // ---------------------------------------------------------------------

  /** The cells the source's tests read: corners 1, 2, 3, 4 at the origin and 5 in the far corner. */
  predicate IsSampleMap(m: HeightMap) {
    ValidHeightMap(m) &&
    m.buffer[0] == 1 && m.buffer[1] == 2 && m.buffer[Size] == 3 && m.buffer[Size + 1] == 4 &&
    m.buffer[1023 + Size * 1023] == 5
  }

  function SampleValue(k: int): U8 {
    if k == 0 then 1
    else if k == 1 then 2
    else if k == Size then 3
    else if k == Size + 1 then 4
    else if k == 1023 + Size * 1023 then 5
    else 0
  }

  /** The test map: those five cells set, all others zero, and a declared size of 2 x 2 that addressing ignores. */
  function SampleMap(): (m: HeightMap)
    ensures IsSampleMap(m)
  {
    HeightMap(2, 2, seq(Size * Size, k => SampleValue(k)))
  }

  /** At integer coordinates the interpolated sample is the stored byte of cell (a mod 1024, b mod 1024). */
  lemma InterpolatedAtInteger(m: HeightMap, a: I32, b: I32)
    requires ValidHeightMap(m)
    requires InI32(a * Multiplier) && InI32(b * Multiplier)
    ensures GetHeightInterpolated(m, FromI32(a), FromI32(b)) == FromI32(m.buffer[a % Size + Size * (b % Size)])
  {
    var x, y := FromI32(a), FromI32(b);
    InterpolatedAtGridPoints(m, x, y);
    GridCellOfInteger(a);
    GridCellOfInteger(b);
    FromU8IsFromI32(m.buffer[a % Size + Size * (b % Size)]);
  }

  lemma GridCellOfInteger(a: I32)
    requires InI32(a * Multiplier)
    ensures GridCell(FromI32(a)) == a % Size
  {
    MultiplierIsPow2();
    DivModUnique(FromI32(a).value, Multiplier, a, 0);
  }

  /** One probe of `get_boundaries`: the origin reads cell (0, 0). */
  lemma BoundaryOrigin(m: HeightMap)
    requires IsSampleMap(m)
    ensures GetHeightInterpolated(m, FromI32(0), FromI32(0)) == FromI32(1)
  {
    InterpolatedAtInteger(m, 0, 0);
  }

  /** One probe of `get_boundaries`: one step along i reads cell (1, 0). */
  lemma BoundaryNextColumn(m: HeightMap)
    requires IsSampleMap(m)
    ensures GetHeightInterpolated(m, FromI32(1), FromI32(0)) == FromI32(2)
  {
    InterpolatedAtInteger(m, 1, 0);
  }

  /** One probe of `get_boundaries`: one step along j reads cell (0, 1). */
  lemma BoundaryNextRow(m: HeightMap)
    requires IsSampleMap(m)
    ensures GetHeightInterpolated(m, FromI32(0), FromI32(1)) == FromI32(3)
  {
    InterpolatedAtInteger(m, 0, 1);
  }

  /** One probe of `get_boundaries`: one step along both reads cell (1, 1). */
  lemma BoundaryDiagonal(m: HeightMap)
    requires IsSampleMap(m)
    ensures GetHeightInterpolated(m, FromI32(1), FromI32(1)) == FromI32(4)
  {
    InterpolatedAtInteger(m, 1, 1);
  }

  /** One probe of `get_boundaries`: i = 1025 wraps to column 1. */
  lemma BoundaryWrappedColumn(m: HeightMap)
    requires IsSampleMap(m)
    ensures GetHeightInterpolated(m, FromI32(1024 + 1), FromI32(1)) == FromI32(4)
  {
    InterpolatedAtInteger(m, 1024 + 1, 1);
  }

  /** One probe of `get_boundaries`: both coordinates 1025 wrap to cell (1, 1). */
  lemma BoundaryWrappedBoth(m: HeightMap)
    requires IsSampleMap(m)
    ensures GetHeightInterpolated(m, FromI32(1024 + 1), FromI32(1024 + 1)) == FromI32(4)
  {
    InterpolatedAtInteger(m, 1024 + 1, 1024 + 1);
  }

  /** One probe of `get_boundaries`: -1 wraps to the last row and column. */
  lemma BoundaryNegative(m: HeightMap)
    requires IsSampleMap(m)
    ensures GetHeightInterpolated(m, FromI32(-1), FromI32(-1)) == FromI32(5)
  {
    InterpolatedAtInteger(m, -1, -1);
  }

  /** The source's `get_interpolation` test: halfway between 1, 2, 3 and 4 is exactly 10/4. */
  lemma GetInterpolationTestVector(m: HeightMap)
    requires IsSampleMap(m)
    ensures GetHeightInterpolated(m, FixedInt10(512), FixedInt10(512)) == DivInt(FromI32(1 + 2 + 3 + 4), 4)
  {
    HalfwayBlend(m);
    HalfWeightTerms();
    assert DivInt(FromI32(1 + 2 + 3 + 4), 4).value == 2560 by {
      assert FromI32(10).value == 10240;
    }
  }

  /** Halfway along both axes of cell (0, 0) the sampler blends the four sample corners with weight one half each way. */
  lemma HalfwayBlend(m: HeightMap)
    requires IsSampleMap(m)
    ensures GetHeightInterpolated(m, FixedInt10(512), FixedInt10(512)).value
         == BlendSum(1 * Multiplier, 2 * Multiplier, 3 * Multiplier, 4 * Multiplier, 512, 512)
  {
    MultiplierIsPow2();
    var half := FixedInt10(512);
    assert Fract(half) == half by {
      DivModUnique(512 - Fract(half).value, 1024, (512 - Fract(half).value) / 1024, 0);
    }
    assert Wrap(half) == 0 && Successor(0) == 1;
  }

  /** Each corner weighted by one half twice contributes a quarter of its value. */
  lemma HalfWeightTerms()
    ensures BlendSum(1 * Multiplier, 2 * Multiplier, 3 * Multiplier, 4 * Multiplier, 512, 512) == 2560
  {
    MultiplierIsPow2();
  }
}
