/**
 * The draw pass of the renderer (src/renderer.rs). For each depth from near
 * to far and each screen column, it samples the height map and the texture
 * along the depth's scan line and projects the height onto the screen. It
 * then paints the part of the column that no nearer depth has covered yet,
 * blending the texel toward the sky colour past the start of the fog.
 *
 * The frame is the locked surface's byte buffer, already filled with the sky
 * colour. Per-depth scan lines (where column 0 samples the map, and the step
 * between columns) are inputs: the source computes them in floating point.
 */
module Renderer {
  import opened Bits
  import opened FixedInt
  import opened Terrain
  import opened Raster

  /** The camera as the draw pass reads it: its height and the screen row of the horizon. */
  datatype Camera = Camera(z: FixedInt10, horizon: I32)

  /** Whether fog is drawn, the depth where it starts, and the depth where drawing stops. */
  datatype RendererConfig = RendererConfig(fog: bool, fogStart: I32, distanceMax: I32)

  /** One depth's scan line: the map position sampled by column 0, and the step from one column to the next. */
  datatype ScanLine = ScanLine(leftX: FixedInt10, leftY: FixedInt10, strideX: FixedInt10, strideY: FixedInt10)

  /** Everything one frame is drawn from; `lines[z]` is the scan line of depth z. */
  datatype Scene = Scene(heightMap: HeightMap, texture: Texture, camera: Camera, config: RendererConfig,
                         screen: Screen, lines: seq<ScanLine>)

  /** The sky: the colour the frame starts from and the colour the fog blends toward. */
  const Sky: Rgba := Rgba(80, 120, 250, 0)

  /** `set_color` stores blue, green, red, in that order. */
  function Bgr(c: Rgba): Pixel {
    Pixel(c.b, c.g, c.r)
  }

  // ---------------------------------------------------------------------
  // Writing pixels
  // ---------------------------------------------------------------------

  /** `set_color`: the three colour bytes of pixel (i, j) are set and nothing else changes. */
  method SetColor(image: array<U8>, i: nat, j: nat, pitch: nat, value: Rgba)
    requires Offset(i, j, pitch) + 2 < image.Length
    modifies image
    ensures image[..] == SetPixel(old(image[..]), Offset(i, j, pitch), Bgr(value))
  {
    var pixelOffset := i * 4 + j * pitch;
    OffsetFormula(i, j, pitch);
    image[pixelOffset] := value.b;
    image[pixelOffset + 1] := value.g;
    image[pixelOffset + 2] := value.r;
  }

  /** `draw_line`: column i is painted from height jmin up to jmax, counting rows from the bottom. */
  method DrawLine(image: array<U8>, i: nat, jmin: nat, jmax: nat, imageH: nat, pitch: nat, value: Rgba)
    requires SpanFits(image.Length, i, jmin, jmax, imageH, pitch)
    modifies image
    ensures image[..] == PaintSpan(old(image[..]), i, jmin, jmax, imageH, pitch, Bgr(value))
  {
    var height := jmin;
    while height < jmax
      invariant height == jmin || jmin < height <= jmax
      invariant image[..] == PaintSpan(old(image[..]), i, jmin, height, imageH, pitch, Bgr(value))
    {
      OffsetMonotone(i, imageH - height - 1, imageH - 1 - jmin, pitch);
      SetColor(image, i, imageH - height - 1, pitch, value);
      height := height + 1;
    }
  }

  // ---------------------------------------------------------------------
  // Sampling and projection
  // ---------------------------------------------------------------------

  predicate StepFits(left: FixedInt10, stride: FixedInt10, i: int) {
    InI32(stride.value * i) && InI32(left.value + stride.value * i)
  }

  /** `left + stride * i`: the map coordinate sampled by column i. */
  function Along(left: FixedInt10, stride: FixedInt10, i: I32): (r: FixedInt10)
    requires StepFits(left, stride, i)
    ensures r.value == left.value + stride.value * i
  {
    Add(left, MulI32(stride, i))
  }

  /** The i32 arithmetic projecting a sample of raw height h at depth z does not overflow. */
  predicate ProjectionFits(cam: Camera, screenH: int, h: int, z: int) {
    InI32(cam.horizon * Multiplier) && InI32(h - cam.z.value) && InI32((h - cam.z.value) * screenH) &&
    z != 0 && InI32(TruncDiv((h - cam.z.value) * screenH, z) + cam.horizon * Multiplier)
  }

  /**
   * The screen height of a sample of height h at depth z: its height above the
   * camera, scaled by the screen height and divided by the depth, raised by the
   * horizon, converted to an integer and clamped at zero. (The scale and the
   * depth should both be fixed point; their factors of 1024 cancel.)
   */
  function Project(cam: Camera, screenH: I32, h: FixedInt10, z: I32): (r: int)
    requires z >= 1 && ProjectionFits(cam, screenH, h.value, z)
    ensures r >= 0
  {
    var horizon := FromI32(cam.horizon);
    var realHeight := Add(DivInt(MulI32(Sub(h, cam.z), screenH), z), horizon);
    Max(0, ToI32(realHeight))
  }

  /** Higher terrain never projects lower on the screen. */
  lemma ProjectMonotone(cam: Camera, screenH: I32, h1: FixedInt10, h2: FixedInt10, z: I32)
    requires z >= 1 && screenH >= 0
    requires ProjectionFits(cam, screenH, h1.value, z) && ProjectionFits(cam, screenH, h2.value, z)
    requires h1.value <= h2.value
    ensures Project(cam, screenH, h1, z) <= Project(cam, screenH, h2, z)
  {
    var s1, s2 := Sub(h1, cam.z), Sub(h2, cam.z);
    MulMonotone(s1.value, s2.value, screenH);
    var m1, m2 := MulI32(s1, screenH), MulI32(s2, screenH);
    TruncDivMonotone(m1.value, m2.value, z);
    var horizon := FromI32(cam.horizon);
    var a1, a2 := Add(DivInt(m1, z), horizon), Add(DivInt(m2, z), horizon);
    ToI32Monotone(a1, a2);
  }

  /** Terrain at the camera's own height projects onto the horizon (clamped at the bottom of the screen). */
  lemma ProjectAtCameraHeight(cam: Camera, screenH: I32, z: I32)
    requires z >= 1 && ProjectionFits(cam, screenH, cam.z.value, z)
    ensures Project(cam, screenH, cam.z, z) == Max(0, cam.horizon)
  {
    DivModUnique(cam.horizon * Multiplier, Multiplier, cam.horizon, 0);
  }

  // ---------------------------------------------------------------------
  // Fog
  // ---------------------------------------------------------------------

  /** The i32 arithmetic of the fog weights at depth z does not overflow. */
  predicate FogFits(cfg: RendererConfig, z: int) {
    InI32(z - cfg.fogStart) && InI32((z - cfg.fogStart) * Multiplier) && InI32(cfg.distanceMax - cfg.fogStart)
  }

  /** `from(z - fog_start) / (distance_max - fog_start)`: how far depth z lies into the fog, below one. */
  function SkyWeight(cfg: RendererConfig, z: I32): (r: FixedInt10)
    requires cfg.fogStart < z < cfg.distanceMax && FogFits(cfg, z)
    ensures 0 <= r.value < Multiplier
  {
    var r := DivInt(FromI32(z - cfg.fogStart), cfg.distanceMax - cfg.fogStart);
    FractionBelowOne(z - cfg.fogStart, cfg.distanceMax - cfg.fogStart, r.value);
    r
  }

  lemma FractionBelowOne(n: int, d: int, q: int)
    requires 0 < n < d && 0 <= n * Multiplier - q * d < d
    ensures 0 <= q < Multiplier
  {
    if q >= Multiplier {
      MulMonotone(Multiplier, q, d);
    } else if q < 0 {
      MulMonotone(q, -1, d);
    }
  }

  /** The fog thickens with depth: a farther depth never has a smaller sky weight. */
  lemma SkyWeightMonotone(cfg: RendererConfig, z1: I32, z2: I32)
    requires cfg.fogStart < z1 <= z2 < cfg.distanceMax && FogFits(cfg, z1) && FogFits(cfg, z2)
    ensures SkyWeight(cfg, z1).value <= SkyWeight(cfg, z2).value
  {
    var d := cfg.distanceMax - cfg.fogStart;
    TruncDivMonotone((z1 - cfg.fogStart) * Multiplier, (z2 - cfg.fogStart) * Multiplier, d);
  }

  predicate Between(x: int, a: int, b: int) {
    Min(a, b) <= x <= Max(a, b)
  }

  /**
   * One fogged channel: `texture_weight * texel + sky_weight * sky`, converted
   * back to a byte. The result is the weighted sum rounded down, and it lies
   * between the texel and the sky.
   */
  function FogChannel(tw: FixedInt10, sw: FixedInt10, t: U8, s: U8): (r: U8)
    requires 0 <= sw.value <= Multiplier && tw.value == Multiplier - sw.value
    ensures r * Multiplier <= tw.value * t + sw.value * s < r * Multiplier + Multiplier
    ensures Between(r, t, s)
  {
    ConvexBlend(tw.value, sw.value, t, s);
    var r := ToU8(Add(MulU8(tw, t), MulU8(sw, s)));
    BlendedByteBetween(tw.value * t + sw.value * s, ToI32(Add(MulU8(tw, t), MulU8(sw, s))), t, s);
    r
  }

  /** Weights that sum to one blend two bytes into a value between them, with room to spare in an i32. */
  lemma ConvexBlend(tw: int, sw: int, t: U8, s: U8)
    requires 0 <= sw <= Multiplier && tw == Multiplier - sw
    ensures 0 <= tw * t <= 255 * Multiplier && 0 <= sw * s <= 255 * Multiplier
    ensures Multiplier * Min(t, s) <= tw * t + sw * s <= Multiplier * Max(t, s)
  {
    WeightedByte(tw, t);
    WeightedByte(sw, s);
    var m, n := Min(t, s), Max(t, s);
    MulMonotone(m, t, tw);
    MulMonotone(m, s, sw);
    MulMonotone(t, n, tw);
    MulMonotone(s, n, sw);
    Distribute(m, tw, sw);
    Distribute(n, tw, sw);
  }

  lemma WeightedByte(w: int, x: U8)
    requires 0 <= w <= Multiplier
    ensures 0 <= w * x <= 255 * Multiplier
  {
    MulMonotone(x, 255, w);
    MulMonotone(w, Multiplier, 255);
  }

  lemma Distribute(x: int, a: int, b: int)
    ensures x * a + x * b == x * (a + b)
  {
  }

  lemma BlendedByteBetween(v: int, r: int, t: U8, s: U8)
    requires Multiplier * Min(t, s) <= v <= Multiplier * Max(t, s)
    requires r * Multiplier <= v < r * Multiplier + Multiplier
    ensures Min(t, s) <= r <= Max(t, s)
  {
  }

  /**
   * The colour painted at depth z: the texel itself, or, with fog on and z
   * past the fog start, every colour channel blended between the texel and
   * the sky, with alpha zero.
   */
  function Fogged(cfg: RendererConfig, z: I32, texel: Rgba): (r: Rgba)
    requires z < cfg.distanceMax && (cfg.fog && z > cfg.fogStart ==> FogFits(cfg, z))
    ensures !(cfg.fog && z > cfg.fogStart) ==> r == texel
    ensures cfg.fog && z > cfg.fogStart ==>
      r.a == 0 && Between(r.r, texel.r, Sky.r) && Between(r.g, texel.g, Sky.g) && Between(r.b, texel.b, Sky.b)
    ensures cfg.fog && z > cfg.fogStart ==>
      var w := SkyWeight(cfg, z).value;
      r.r * Multiplier <= (Multiplier - w) * texel.r + w * Sky.r < r.r * Multiplier + Multiplier &&
      r.g * Multiplier <= (Multiplier - w) * texel.g + w * Sky.g < r.g * Multiplier + Multiplier &&
      r.b * Multiplier <= (Multiplier - w) * texel.b + w * Sky.b < r.b * Multiplier + Multiplier
  {
    if cfg.fog && z > cfg.fogStart then
      var skyWeight := SkyWeight(cfg, z);
      // `FixedInt10::from(1) - sky_weight`: one is the raw value Multiplier.
      var textureWeight := FixedInt10(Multiplier - skyWeight.value);
      Rgba(FogChannel(textureWeight, skyWeight, texel.r, Sky.r),
           FogChannel(textureWeight, skyWeight, texel.g, Sky.g),
           FogChannel(textureWeight, skyWeight, texel.b, Sky.b),
           0)
    else texel
  }

  // ---------------------------------------------------------------------
  // The frame
  // ---------------------------------------------------------------------

  /** Column i at depth z samples the map and projects without overflow. */
  predicate SampleFits(sc: Scene, z: int, i: int)
    requires ValidHeightMap(sc.heightMap) && 1 <= z < |sc.lines| && 0 <= i <= MaxI32
  {
    var line := sc.lines[z];
    StepFits(line.leftX, line.strideX, i) && StepFits(line.leftY, line.strideY, i) && InI32(z) &&
    ProjectionFits(sc.camera, sc.screen.height,
                   GetHeight(sc.heightMap, Along(line.leftX, line.strideX, i), Along(line.leftY, line.strideY, i)).value, z) &&
    (sc.config.fog && z > sc.config.fogStart ==> FogFits(sc.config, z))
  }

  predicate ValidScene(sc: Scene) {
    ValidHeightMap(sc.heightMap) && ValidTexture(sc.texture) &&
    sc.screen.width <= MaxI32 && sc.screen.height <= MaxI32 &&
    sc.config.distanceMax <= |sc.lines| &&
    forall z, i | 1 <= z < sc.config.distanceMax && 0 <= i < sc.screen.width :: SampleFits(sc, z, i)
  }

  /** The projected height of column i at depth z. */
  function Height(sc: Scene, z: int, i: int): int
    requires ValidScene(sc) && 1 <= z < sc.config.distanceMax && 0 <= i < sc.screen.width
  {
    assert SampleFits(sc, z, i);
    var line := sc.lines[z];
    var heightOnMap := GetHeight(sc.heightMap, Along(line.leftX, line.strideX, i), Along(line.leftY, line.strideY, i));
    Project(sc.camera, sc.screen.height, heightOnMap, z)
  }

  /** The colour painted for column i at depth z: the texel under the sample, fogged. */
  function Color(sc: Scene, z: int, i: int): Rgba
    requires ValidScene(sc) && 1 <= z < sc.config.distanceMax && 0 <= i < sc.screen.width
  {
    assert SampleFits(sc, z, i);
    var line := sc.lines[z];
    var texel := GetTexel(sc.texture, Along(line.leftX, line.strideX, i), Along(line.leftY, line.strideY, i));
    Fogged(sc.config, z, texel)
  }

  function Heights(sc: Scene): (int, int) -> int
    requires ValidScene(sc)
  {
    (z, i) => if 1 <= z < sc.config.distanceMax && 0 <= i < sc.screen.width then Height(sc, z, i) else 0
  }

  function Colors(sc: Scene): (int, int) -> Rgba
    requires ValidScene(sc)
  {
    (z, i) => if 1 <= z < sc.config.distanceMax && 0 <= i < sc.screen.width then Color(sc, z, i) else Sky
  }

  /** The pixels `set_color` writes for a map of colours. */
  function Bgrs(color: (int, int) -> Rgba): (int, int) -> Pixel {
    (z, i) => Bgr(color(z, i))
  }

  /**
   * Column i at depth z reads the height and the texel of the same grid cell,
   * the one under `left + stride * i` on the depth's scan line, and paints the
   * projected height in the fogged texel.
   */
  lemma SamplesShareCell(sc: Scene, z: int, i: int)
    requires ValidScene(sc) && 1 <= z < sc.config.distanceMax && 0 <= i < sc.screen.width
    ensures SampleFits(sc, z, i)
    ensures var line := sc.lines[z];
      var x, y := Along(line.leftX, line.strideX, i), Along(line.leftY, line.strideY, i);
      var cell := GridCell(x) + Size * GridCell(y);
      x.value == line.leftX.value + line.strideX.value * i && y.value == line.leftY.value + line.strideY.value * i &&
      Heights(sc)(z, i) == Project(sc.camera, sc.screen.height, FromU8(sc.heightMap.buffer[cell]), z) &&
      Colors(sc)(z, i) == Fogged(sc.config, z, sc.texture.buffer[cell])
  {
    assert SampleFits(sc, z, i);
  }

  /**
   * `draw`: the frame, already filled with the sky, receives depths
   * 1 .. distance_max-1 of the scene. The result is the painter's-algorithm
   * frame of Raster, whose bytes RenderShowsNearestCover describes; with no
   * depth to draw the frame keeps the sky.
   */
  method Draw(image: array<U8>, sc: Scene)
    requires ValidScene(sc) && Fits(sc.screen, image.Length)
    modifies image
    ensures image[..] == Render(sc.screen, old(image[..]), 1, sc.config.distanceMax, Heights(sc), Bgrs(Colors(sc)))
    ensures sc.config.distanceMax <= 1 ==> image[..] == old(image[..])
  {
    DrawDepths(image, sc.screen, sc.config.distanceMax, Heights(sc), Colors(sc));
  }

  /**
   * The body of the closure `draw` hands to `with_lock`: for each depth z in
   * 1 .. distanceMax-1 and each column i, the column is painted from its
   * highest height so far up to the projected height `height(z, i)` (capped at
   * the screen) in `color(z, i)`, and `max_height` is raised.
   */
  method DrawDepths(image: array<U8>, screen: Screen, distanceMax: int,
                    height: (int, int) -> int, color: (int, int) -> Rgba)
    requires Fits(screen, image.Length)
    modifies image
    ensures image[..] == Render(screen, old(image[..]), 1, distanceMax, height, Bgrs(color))
    ensures distanceMax <= 1 ==> image[..] == old(image[..])
  {
    ghost var start := Start(screen, image[..]);
    var maxHeight := new int[screen.width](_ => 0);
    assert maxHeight[..] == start.maxHeight;
    var z := 1;
    while z < distanceMax
      invariant z == 1 || 1 < z <= distanceMax
      invariant Frame(image[..], maxHeight[..]) == Layers(screen, start, 1, z, height, Bgrs(color))
    {
      DrawDepth(image, maxHeight, screen, z, height, color);
      z := z + 1;
    }
  }

  /** One pass of the outer loop of `draw`: depth z, columns left to right. */
  method DrawDepth(image: array<U8>, maxHeight: array<int>, screen: Screen, z: int,
                   height: (int, int) -> int, color: (int, int) -> Rgba)
    requires Good(screen, Frame(image[..], maxHeight[..]))
    modifies image, maxHeight
    ensures Frame(image[..], maxHeight[..]) == Sweep(screen, old(Frame(image[..], maxHeight[..])), z, screen.width, height, Bgrs(color))
  {
    ghost var before := Frame(image[..], maxHeight[..]);
    var i := 0;
    while i < screen.width
      invariant 0 <= i <= screen.width
      invariant Frame(image[..], maxHeight[..]) == Sweep(screen, before, z, i, height, Bgrs(color))
    {
      DrawColumn(image, maxHeight, screen, z, i, height, color);
      i := i + 1;
    }
  }

  /** One pass of the inner loop of `draw`: column i at depth z. */
  method DrawColumn(image: array<U8>, maxHeight: array<int>, screen: Screen, z: int, i: nat,
                    height: (int, int) -> int, color: (int, int) -> Rgba)
    requires Good(screen, Frame(image[..], maxHeight[..])) && i < screen.width
    modifies image, maxHeight
    ensures Frame(image[..], maxHeight[..]) == Step(screen, old(Frame(image[..], maxHeight[..])), i, height(z, i), Bgrs(color)(z, i))
  {
    var realHeight := height(z, i);
    if realHeight > maxHeight[i] {
      var value := color(z, i);
      ColumnFits(screen, image.Length, i, maxHeight[i], Min(realHeight, screen.height));
      DrawLine(image, i, maxHeight[i], Min(realHeight, screen.height), screen.height, screen.pitch, value);
      maxHeight[i] := realHeight;
    }
  }
}
