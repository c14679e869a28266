/**
 * The older draw pass (src/draw.rs). It has the shape of the renderer's pass
 * but uses plain `i32` arithmetic with 11 fractional bits, a fixed depth range
 * 1 .. 499, a fixed height scale of 2^7, no fog and no sky fill. Its colours
 * are stored in red, green, blue order.
 *
 * The height map and the texture it reads have an integer-coordinate `get`
 * that is not part of this model, so the scene carries them as two samplers.
 * It also reads the camera's height as an `i32`.
 */
module ClassicDraw {
  import opened Bits
  import opened Terrain
  import opened Raster

  /** The number of fractional bits of the pass's fixed-point values. */
  const FixedPrecision: nat := 11
  /** The height scale is 2^ScaleHeightShift. */
  const ScaleHeightShift: nat := 7
  /** Depths 1 .. DistanceMax-1 are drawn. */
  const DistanceMax: int := 500

  lemma ShiftFactors()
    ensures Pow2(FixedPrecision) == 2048 && Pow2(ScaleHeightShift) == 128
  {
    assert Pow2(7) == 128 by {
      assert Pow2(3) == 8;
    }
    assert Pow2(11) == 16 * Pow2(7) by {
      Pow2Split(7, 4);
    }
  }

  /** The camera as this pass reads it: its height and the screen row of the horizon, as integers. */
  datatype Camera = Camera(z: I32, horizon: I32)

  /** One depth's scan line, in raw 11-bit fixed point: where column 0 samples the map, and the step between columns. */
  datatype ScanLine = ScanLine(leftX: I32, leftY: I32, strideX: I32, strideY: I32)

  /** Everything one frame is drawn from; `lines[z]` is the scan line of depth z. */
  datatype Scene = Scene(heightAt: (int, int) -> U8, texelAt: (int, int) -> Rgba, camera: Camera,
                         screen: Screen, lines: seq<ScanLine>)

  /** This `set_color` stores red, green, blue, in that order. */
  function Rgb(c: Rgba): Pixel {
    Pixel(c.r, c.g, c.b)
  }

  // ---------------------------------------------------------------------
  // Writing pixels
  // ---------------------------------------------------------------------

  /** `set_color`: bytes `i*4 + j*pitch` .. +2 get red, green and blue; nothing else changes. */
  method SetColor(image: array<U8>, i: nat, j: nat, pitch: nat, value: Rgba)
    requires Offset(i, j, pitch) + 2 < image.Length
    modifies image
    ensures image[..] == SetPixel(old(image[..]), Offset(i, j, pitch), Rgb(value))
  {
    var pixelOffset := i * 4 + j * pitch;
    OffsetFormula(i, j, pitch);
    image[pixelOffset] := value.r;
    image[pixelOffset + 1] := value.g;
    image[pixelOffset + 2] := value.b;
  }

  /** `draw_line`: column i is painted from height jmin up to jmax, counting rows from the bottom. */
  method DrawLine(image: array<U8>, i: nat, jmin: nat, jmax: nat, imageH: nat, pitch: nat, value: Rgba)
    requires SpanFits(image.Length, i, jmin, jmax, imageH, pitch)
    modifies image
    ensures image[..] == PaintSpan(old(image[..]), i, jmin, jmax, imageH, pitch, Rgb(value))
  {
    var height := jmin;
    while height < jmax
      invariant height == jmin || jmin < height <= jmax
      invariant image[..] == PaintSpan(old(image[..]), i, jmin, height, imageH, pitch, Rgb(value))
    {
      OffsetMonotone(i, imageH - height - 1, imageH - 1 - jmin, pitch);
      SetColor(image, i, imageH - height - 1, pitch, value);
      height := height + 1;
    }
  }

  // ---------------------------------------------------------------------
  // Sampling and projection
  // ---------------------------------------------------------------------

  predicate CoordFits(left: int, stride: int, i: int) {
    InI32(i * stride) && InI32(left + i * stride)
  }

  /** `(fixed_left + i * fixed_stride) >> 11`: the map cell column i samples, rounded down. */
  function Coord(left: int, stride: int, i: int): (r: int)
    requires CoordFits(left, stride, i)
    ensures r * 2048 <= left + i * stride < r * 2048 + 2048
    ensures InI32(r)
  {
    ShiftFactors();
    ShiftRight(left + i * stride, FixedPrecision)
  }

  /** The i32 arithmetic projecting a sample of height h at depth z does not overflow. */
  predicate ProjectionFits(cam: Camera, h: int, z: int) {
    var diff := ShiftLeft(h, FixedPrecision) - ShiftLeft(cam.z, FixedPrecision);
    InI32(ShiftLeft(cam.z, FixedPrecision)) && InI32(ShiftLeft(cam.horizon, FixedPrecision)) &&
    InI32(diff) && InI32(ShiftLeft(diff, ScaleHeightShift)) && z != 0 &&
    InI32(TruncDiv(ShiftLeft(diff, ScaleHeightShift), z) + ShiftLeft(cam.horizon, FixedPrecision))
  }

  /**
   * The screen height of a sample of height h at depth z: the height above the
   * camera in 11-bit fixed point, scaled by 2^7, divided by the depth, raised
   * by the horizon, shifted back to an integer and clamped at zero.
   */
  function Project(cam: Camera, h: U8, z: int): (r: int)
    requires z >= 1 && ProjectionFits(cam, h, z)
    ensures r >= 0
  {
    var fixedHeight := ShiftLeft(h, FixedPrecision);
    var fixedReal := TruncDiv(ShiftLeft(fixedHeight - ShiftLeft(cam.z, FixedPrecision), ScaleHeightShift), z) +
                     ShiftLeft(cam.horizon, FixedPrecision);
    Max(0, ShiftRight(fixedReal, FixedPrecision))
  }

  /** Higher terrain never projects lower on the screen. */
  lemma ProjectMonotone(cam: Camera, h1: U8, h2: U8, z: int)
    requires z >= 1 && ProjectionFits(cam, h1, z) && ProjectionFits(cam, h2, z)
    requires h1 <= h2
    ensures Project(cam, h1, z) <= Project(cam, h2, z)
  {
    ShiftFactors();
    var d1, d2 := h1 * 2048 - cam.z * 2048, h2 * 2048 - cam.z * 2048;
    TruncDivMonotone(d1 * 128, d2 * 128, z);
    var q1, q2 := TruncDiv(d1 * 128, z) + cam.horizon * 2048, TruncDiv(d2 * 128, z) + cam.horizon * 2048;
    FloorMonotone(q1, q2);
  }

  lemma FloorMonotone(a: int, b: int)
    requires a <= b
    ensures a / 2048 <= b / 2048
  {
  }

  /** Terrain at the camera's own height projects onto the horizon (clamped at the bottom of the screen). */
  lemma ProjectAtCameraHeight(cam: Camera, z: int)
    requires 0 <= cam.z < 256 && z >= 1 && ProjectionFits(cam, cam.z, z)
    ensures Project(cam, cam.z as U8, z) == Max(0, cam.horizon)
  {
    ShiftFactors();
    DivModUnique(cam.horizon * 2048, 2048, cam.horizon, 0);
  }

  // ---------------------------------------------------------------------
  // The frame
  // ---------------------------------------------------------------------

  /** Column i at depth z samples the map and projects without overflow. */
  predicate SampleFits(sc: Scene, z: int, i: int)
    requires 1 <= z < |sc.lines|
  {
    var line := sc.lines[z];
    CoordFits(line.leftX, line.strideX, i) && CoordFits(line.leftY, line.strideY, i) &&
    ProjectionFits(sc.camera, sc.heightAt(Coord(line.leftX, line.strideX, i), Coord(line.leftY, line.strideY, i)), z)
  }

  predicate ValidScene(sc: Scene) {
    sc.screen.width <= MaxI32 && sc.screen.height <= MaxI32 && DistanceMax <= |sc.lines| &&
    forall z, i | 1 <= z < DistanceMax && 0 <= i < sc.screen.width :: SampleFits(sc, z, i)
  }

  /** The projected height of column i at depth z. */
  function Height(sc: Scene, z: int, i: int): int
    requires ValidScene(sc) && 1 <= z < DistanceMax && 0 <= i < sc.screen.width
  {
    assert SampleFits(sc, z, i);
    var line := sc.lines[z];
    Project(sc.camera, sc.heightAt(Coord(line.leftX, line.strideX, i), Coord(line.leftY, line.strideY, i)), z)
  }

  /** The texel under column i at depth z. */
  function Color(sc: Scene, z: int, i: int): Rgba
    requires ValidScene(sc) && 1 <= z < DistanceMax && 0 <= i < sc.screen.width
  {
    assert SampleFits(sc, z, i);
    var line := sc.lines[z];
    sc.texelAt(Coord(line.leftX, line.strideX, i), Coord(line.leftY, line.strideY, i))
  }

  function Heights(sc: Scene): (int, int) -> int
    requires ValidScene(sc)
  {
    (z, i) => if 1 <= z < DistanceMax && 0 <= i < sc.screen.width then Height(sc, z, i) else 0
  }

  function Colors(sc: Scene): (int, int) -> Rgba
    requires ValidScene(sc)
  {
    (z, i) => if 1 <= z < DistanceMax && 0 <= i < sc.screen.width then Color(sc, z, i) else Rgba(0, 0, 0, 0)
  }

  /** The pixels `set_color` writes for a map of colours. */
  function Rgbs(color: (int, int) -> Rgba): (int, int) -> Pixel {
    (z, i) => Rgb(color(z, i))
  }

  /**
   * Column i at depth z reads the height and the texel at the same map cell:
   * the scan line's position at column i, shifted down by 11 bits.
   */
  lemma SamplesShareCell(sc: Scene, z: int, i: int)
    requires ValidScene(sc) && 1 <= z < DistanceMax && 0 <= i < sc.screen.width
    ensures SampleFits(sc, z, i)
    ensures var line := sc.lines[z];
      var x, y := Coord(line.leftX, line.strideX, i), Coord(line.leftY, line.strideY, i);
      x == (line.leftX + i * line.strideX) / 2048 && y == (line.leftY + i * line.strideY) / 2048 &&
      Colors(sc)(z, i) == sc.texelAt(x, y) && Heights(sc)(z, i) == Project(sc.camera, sc.heightAt(x, y), z)
  {
    assert SampleFits(sc, z, i);
    var line := sc.lines[z];
    var a, b := line.leftX + i * line.strideX, line.leftY + i * line.strideY;
    var x, y := Coord(line.leftX, line.strideX, i), Coord(line.leftY, line.strideY, i);
    DivModUnique(a, 2048, x, a - x * 2048);
    DivModUnique(b, 2048, y, b - y * 2048);
  }

  /**
   * `draw`: depths 1 .. 499 of the scene are drawn over the frame as it is.
   * The result is the painter's-algorithm frame of Raster, whose bytes
   * RenderShowsNearestCover describes.
   */
  method Draw(image: array<U8>, sc: Scene)
    requires ValidScene(sc) && Fits(sc.screen, image.Length)
    modifies image
    ensures image[..] == Render(sc.screen, old(image[..]), 1, DistanceMax, Heights(sc), Rgbs(Colors(sc)))
  {
    DrawDepths(image, sc.screen, Heights(sc), Colors(sc));
  }

  /**
   * The body of the closure `draw` hands to `with_lock`: for each depth z in
   * 1 .. 499 and each column i, the column is painted from its highest height
   * so far up to `height(z, i)` (capped at the screen) in `color(z, i)`, and
   * `max_height` is raised.
   */
  method DrawDepths(image: array<U8>, screen: Screen, height: (int, int) -> int, color: (int, int) -> Rgba)
    requires Fits(screen, image.Length)
    modifies image
    ensures image[..] == Render(screen, old(image[..]), 1, DistanceMax, height, Rgbs(color))
  {
    ghost var start := Start(screen, image[..]);
    var maxHeight := new int[screen.width](_ => 0);
    assert maxHeight[..] == start.maxHeight;
    for z := 1 to DistanceMax
      invariant Frame(image[..], maxHeight[..]) == Layers(screen, start, 1, z, height, Rgbs(color))
    {
      DrawDepth(image, maxHeight, screen, z, height, color);
    }
  }

  /** One pass of the outer loop of `draw`: depth z, columns left to right. */
  method DrawDepth(image: array<U8>, maxHeight: array<int>, screen: Screen, z: int,
                   height: (int, int) -> int, color: (int, int) -> Rgba)
    requires Good(screen, Frame(image[..], maxHeight[..]))
    modifies image, maxHeight
    ensures Frame(image[..], maxHeight[..]) == Sweep(screen, old(Frame(image[..], maxHeight[..])), z, screen.width, height, Rgbs(color))
  {
    ghost var before := Frame(image[..], maxHeight[..]);
    var i := 0;
    while i < screen.width
      invariant 0 <= i <= screen.width
      invariant Frame(image[..], maxHeight[..]) == Sweep(screen, before, z, i, height, Rgbs(color))
    {
      DrawColumn(image, maxHeight, screen, z, i, height, color);
      i := i + 1;
    }
  }

  /** One pass of the inner loop of `draw`: column i at depth z. */
  method DrawColumn(image: array<U8>, maxHeight: array<int>, screen: Screen, z: int, i: nat,
                    height: (int, int) -> int, color: (int, int) -> Rgba)
    requires Good(screen, Frame(image[..], maxHeight[..])) && i < screen.width
    modifies image, maxHeight
    ensures Frame(image[..], maxHeight[..]) == Step(screen, old(Frame(image[..], maxHeight[..])), i, height(z, i), Rgbs(color)(z, i))
  {
    var realHeight := height(z, i);
    if realHeight > maxHeight[i] {
      var textureValue := color(z, i);
      ColumnFits(screen, image.Length, i, maxHeight[i], Min(realHeight, screen.height));
      DrawLine(image, i, maxHeight[i], Min(realHeight, screen.height), screen.height, screen.pitch, textureValue);
      maxHeight[i] := realHeight;
    }
  }
}
