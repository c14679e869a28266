# mountain: a verified model of the voxel-space terrain renderer

`mountain` draws a landscape the way the old voxel-space games did. A
1024 x 1024 height map and a matching colour texture tile the plane. For
each depth, from near to far, the renderer walks a scan line across the
map, one sample per screen column. It projects each sample's height onto
the screen and paints the part of the column that no nearer depth has
covered yet, optionally fading the colour toward the sky with distance.
All of this is done in integer fixed-point arithmetic.

This project models that core in Dafny and proves what it promises:

- `bits.dfy` (module `Bits`): the machine operators the source relies on,
  written out on unbounded integers:
  - two's-complement `&`;
  - `>>`, which rounds toward minus infinity;
  - `/`, which truncates toward zero;
  - the `i32` range.
- `fixed_int.dfy` (module `FixedInt`): `FixedInt10`, an `i32` read as
  value / 1024. It covers `floor`, `fract`, the integer conversions and every
  operator, plus the source's unit tests as lemmas.
- `terrain.dfy` (module `Terrain`): the height map and texture samplers.
  Both the nearest-cell `get` and the bilinear `get_interpolate` are modelled,
  with wrap-around addressing. It also has the size and format checks of
  both `from_file` loaders, and the source's test vectors.
- `raster.dfy` (module `Raster`): the painter's algorithm shared by both
  draw passes, as pure functions over the frame's bytes. It contains the
  painter's theorem: each colour byte shows the nearest depth that covers it,
  and every other byte is untouched.
- `renderer.dfy` (module `Renderer`): the current draw pass (src/renderer.rs).
  It works over a byte `array` and a `max_height` `array`, with
  `FixedInt10` projection and fog. Each method is proved equal to the `Raster`
  specification.
- `draw.dfy` (module `ClassicDraw`): the older draw pass (src/draw.rs). It
  uses `i32` values with 11 fractional bits, depths 1 .. 499, and colours
  stored in red, green, blue order.
- `stats.dfy` (module `Timing`): the `Stats` frame-time counter, a class
  updated in place.

Integer overflow is excluded by preconditions throughout. For `+`, `-`
and `*`, Rust reports it as a panic in a debug build and wraps around in
a release build. A left shift `<<` by less than 32 never panics: bits
shifted out of the `i32` are dropped silently in every build (only a
shift amount of 32 or more panics, and only in a debug build;
a release build masks the amount). The source shifts left in
`From<i32>`, `From<u8>`, `Shl`, in the mask of `BitAnd`, in the integer
operands of `Add<i32>` and `Sub<i32>`, and in the projection of both draw
passes. Each member's `requires` names the quantities that must stay
inside `i32`, `u32` or `usize`, so none of these truncations or
wrap-arounds is reproduced.

## Model

| member | source | states |
|---|---|---|
| Bits.ShiftRight | src/fixed_int.rs:53 | `v >> k` is the largest r with r * 2^k <= v, i.e. it rounds toward minus infinity |
| Bits.TruncDiv | src/fixed_int.rs:131-139 | integer `/` leaves a remainder smaller than the divisor and with the dividend's sign (truncation toward zero) |
| Bits.TruncDivMonotone | src/fixed_int.rs:136 | truncating division by a positive divisor preserves order |
| Bits.TruncDivShrinks | src/fixed_int.rs:136 | the quotient is no larger in magnitude than the dividend, at most half as large for a divisor of 2 or more, and exact for divisors 1 and -1 |
| Bits.BitAndLowMask | src/fixed_int.rs:28-32 | masking with 2^k - 1 keeps the Euclidean remainder modulo 2^k, for negative values too |
| Bits.BitAndHighMask | src/fixed_int.rs:21-25 | masking with !(2^k - 1) clears the low k bits: the result is v minus its remainder modulo 2^k |
| Bits.BitAndNonNegative | src/terrain.rs:13-14 | masking with a non-negative mask gives a value between zero and the mask |
| Bits.BitAndKeepsMultiple | src/fixed_int.rs:121-129 | masking with a multiple of 2^k yields a multiple of 2^k |
| Bits.BitAndFits | src/fixed_int.rs:121-129 | masking two n-bit signed values gives an n-bit signed value (`&` cannot overflow) |
| FixedInt.Floor | src/fixed_int.rs:21-25 | `floor` yields a whole number of units, the largest one not above x |
| FixedInt.Fract | src/fixed_int.rs:28-32 | `fract` lies in [0, 1024) and differs from x by a whole number of units |
| FixedInt.ToI32 | src/fixed_int.rs:51-55 | `i32::from` is the integer part rounded toward minus infinity |
| FixedInt.ToUsize | src/fixed_int.rs:57-61 | `usize::from` reinterprets the raw value as `u32` before the shift; for non-negative values it is the integer part, and in every case its low ten bits are those of the integer part |
| FixedInt.ToU8 | src/fixed_int.rs:63-67 | `u8::from` keeps the integer part modulo 256, and equals it for values in [0, 256) |
| FixedInt.FromI32 | src/fixed_int.rs:76-82 | `From<i32>` scales by 1024; converting back gives n and the fraction is zero |
| FixedInt.FromU8 | src/fixed_int.rs:84-90 | `From<u8>` yields a value in [0, 255] units that converts back to the same byte |
| FixedInt.Shr | src/fixed_int.rs:111-119 | `>>` divides the raw value by 2^k, rounding toward minus infinity |
| FixedInt.And | src/fixed_int.rs:121-129 | `x & k` masks with `k << 10`: the result is a whole number of units, between 0 and k when k >= 0 |
| FixedInt.DivInt | src/fixed_int.rs:131-139 | `/ k` truncates the raw value's quotient toward zero |
| FixedInt.Shl | src/fixed_int.rs:101-109 | `x << k` multiplies the raw value by 2^k when nothing is shifted out |
| FixedInt.Add | src/fixed_int.rs:141-149 | fixed plus fixed: the integer parts add, with a carry of at most one from the fractions |
| FixedInt.AddInt | src/fixed_int.rs:151-159 | `x + k` raises the integer part by exactly k |
| FixedInt.Sub | src/fixed_int.rs:161-169 | fixed minus fixed: the integer parts subtract with a borrow of at most one, and adding y back gives x |
| FixedInt.SubInt | src/fixed_int.rs:171-179 | `x - k` lowers the integer part by exactly k |
| FixedInt.Mul | src/fixed_int.rs:181-189 | fixed times fixed is the exact product of the two values rounded down to a multiple of 1/1024 |
| FixedInt.MulU8 | src/fixed_int.rs:191-199 | times a u8 scales the raw value without renormalising: dividing by a non-zero byte gives x back |
| FixedInt.MulI32 | src/fixed_int.rs:201-209 | times an i32 scales the raw value without renormalising: dividing by a non-zero integer gives x back |
| FixedInt.Le | src/fixed_int.rs:6 | the derived `Ord` orders raw values; the integer parts follow that order in both directions |
| FixedInt.FloorPlusFract | src/fixed_int.rs:21-32 | `floor(x) + fract(x) == x` |
| FixedInt.FloorIdempotent | src/fixed_int.rs:21-25 | `floor` is idempotent, leaves no fraction and keeps the integer part |
| FixedInt.FloorMonotone | src/fixed_int.rs:21-25 | `floor` preserves the order of `Ord` |
| FixedInt.IntRoundTrip | src/fixed_int.rs:216-222 | converting an i32 to fixed point and back gives the same integer |
| FixedInt.ToI32RoundsDown | src/fixed_int.rs:53 | negative fractions round down: -1/1024 and -1 convert to -1, and -1025/1024 converts to -2; `/` truncates while `>>` floors |
| FixedInt.FromU8IsFromI32 | src/fixed_int.rs:76-90 | `From<u8>` agrees with `From<i32>` of the same number |
| FixedInt.AddIntMovesIntegerPart | src/fixed_int.rs:151-159 | adding an integer k moves the integer part by k and keeps the fraction |
| FixedInt.AddIntIsAddFixed | src/fixed_int.rs:141-159 | `x + k` equals `x + FixedInt10::from(k)` |
| FixedInt.SubIntAddIntRoundTrip | src/fixed_int.rs:151-179 | `(x - k) + k == x` |
| FixedInt.MulRenormalises | src/fixed_int.rs:181-189 | fixed times fixed renormalises: `from(a) * from(b) == from(a * b)` |
| FixedInt.MulI32IsMulByFixed | src/fixed_int.rs:181-209 | multiplying by an i32 equals multiplying by its fixed-point value |
| FixedInt.MulU8IsMulI32 | src/fixed_int.rs:191-209 | multiplying by a u8 equals multiplying by the same number as an i32 |
| FixedInt.DivIntMulRoundTrip | src/fixed_int.rs:131-139 | `(x / k) * k == x` when k divides the raw value |
| FixedInt.ShlShrRoundTrip | src/fixed_int.rs:101-119 | `(x << k) >> k == x` when the shift does not overflow |
| FixedInt.OperationsTestVectors | src/fixed_int.rs:234-250 | the `operations` test: 200/10, 200*10, 200+10, 200-10, both round trips, the shifts of 1, and 1u8 * 8 |
| FixedInt.EqualityTestVectors | src/fixed_int.rs:260-264 | the integer assertions of `equality`: `from(200) + 20 == from(220)`, `from(220)` is 220 units, and `from(220) != from(200)` |
| FixedInt.BitsManipulationTestVectors | src/fixed_int.rs:270-275 | `bits_manipulation`: 2.5 floors to 2, with fraction 0.5 |
| FixedInt.ShiftAndMaskTestVectors | src/fixed_int.rs:276-278 | `bits_manipulation`: 2.5 << 1 == 5, 2.5 >> 1 == 1.25, 2.5 & 2 == 2 |
| Terrain.Wrap | src/terrain.rs:13-14 | `usize::from(c.floor()) & 1023` is the coordinate's integer part modulo 1024 (Euclidean), always below 1024 |
| Terrain.WrapIsGridCell | src/terrain.rs:13-14 | the same, stated on the mask expression itself |
| Terrain.Successor | src/terrain.rs:20 | `(i0 + 1) & 1023` is the next cell, wrapping from 1023 to 0 |
| Terrain.Index | src/terrain.rs:15 | `i + width() * j` with the hard-coded width 1024 lies inside the 1024 x 1024 buffer |
| Terrain.GetHeight | src/terrain.rs:12-16 | `HeightMap::get` returns the byte of the cell under the coordinates, as fixed point |
| Terrain.Weighted | src/terrain.rs:35 | one corner term `f * a * b` never exceeds f, is f at full weight and 0 at zero weight |
| Terrain.Bilinear | src/terrain.rs:35 | the four-term blend lies between zero and the largest corner |
| Terrain.GetHeightInterpolated | src/terrain.rs:18-36 | `get_interpolate` yields a value between 0 and 255 units |
| Terrain.BilinearAtGridPoint | src/terrain.rs:21-35 | with zero fractions the blend is exactly the first corner |
| Terrain.GetTexel | src/terrain.rs:119-123 | `Texture::get` (no floor) reads the texel of the cell under the coordinates |
| Terrain.ToFixedRgba | src/terrain.rs:125-132 | every channel, alpha included, becomes fixed point and converts back to the same byte |
| Terrain.Near | src/terrain.rs:19-20 | the corner cells a sampler reads: the cell under the coordinate, or the next one, wrapping |
| Terrain.GetTexelInterpolated | src/terrain.rs:134-157 | red, green and blue never exceed the brightest of the four corners; alpha is the first corner's, unweighted |
| Terrain.TexelChannelIsHeightBlend | src/terrain.rs:134-157 | each of red, green and blue is the height sampler's bilinear blend, with the same corners and weights, run over that channel's bytes and cast back to a byte |
| Terrain.BlendChannel | src/terrain.rs:152-154 | one blended channel never exceeds the brightest corner |
| Terrain.GetTexelIsFirstCorner | src/terrain.rs:119-123 | `Texture::get` and the interpolator's first corner read the same cell, although only one takes the floor |
| Terrain.HeightMapFromFile | src/terrain.rs:38-58 | loading succeeds exactly for an 8-bit grey 1024 x 1024 image and keeps its bytes; otherwise it fails to open, has the wrong format, or has the wrong size |
| Terrain.TextureFromFile | src/terrain.rs:159-179 | loading succeeds exactly for an RGBA 1024 x 1024 image and keeps its texels; same three errors otherwise |
| Terrain.GridCellPeriodic | src/terrain.rs:13-14 | moving a coordinate by 1024 lands on the same cell |
| Terrain.GetHeightPeriodic | src/terrain.rs:12-16 | `get` is periodic with period 1024 in each coordinate |
| Terrain.GetHeightInterpolatedPeriodic | src/terrain.rs:18-36 | `get_interpolate` is periodic with period 1024 in each coordinate |
| Terrain.InterpolatedAtGridPoints | src/terrain.rs:18-36 | at integer coordinates `get_interpolate` equals `get` |
| Terrain.BlendChannelAtGridPoint | src/terrain.rs:152-154 | at a grid point a blended channel is the corner's byte |
| Terrain.TexelInterpolatedAtGridPoints | src/terrain.rs:134-157 | at integer coordinates each colour channel of the texture's `get_interpolate` equals `get` |
| Terrain.AddressesInBounds | src/terrain.rs:13-32 | every address `get` and `get_interpolate` form is inside the buffer, for coordinates of either sign |
| Terrain.SampleMap | src/terrain.rs:76-90 | the test map: cells (0,0), (1,0), (0,1), (1,1) and (1023,1023) hold 1, 2, 3, 4, 5 |
| Terrain.InterpolatedAtInteger | src/terrain.rs:18-36 | at integer (a, b) `get_interpolate` is the byte of cell (a mod 1024, b mod 1024) |
| Terrain.GridCellOfInteger | src/terrain.rs:13 | the cell of integer a is a mod 1024 |
| Terrain.BoundaryOrigin | src/terrain.rs:95 | test: (0, 0) reads 1 |
| Terrain.BoundaryNextColumn | src/terrain.rs:96 | test: (1, 0) reads 2 |
| Terrain.BoundaryNextRow | src/terrain.rs:97 | test: (0, 1) reads 3 |
| Terrain.BoundaryDiagonal | src/terrain.rs:98 | test: (1, 1) reads 4 |
| Terrain.BoundaryWrappedColumn | src/terrain.rs:100 | test: (1025, 1) wraps to (1, 1) and reads 4 |
| Terrain.BoundaryWrappedBoth | src/terrain.rs:101-104 | test: (1025, 1025) reads 4 |
| Terrain.BoundaryNegative | src/terrain.rs:105 | test: (-1, -1) wraps to (1023, 1023) and reads 5 |
| Terrain.GetInterpolationTestVector | src/terrain.rs:109-115 | test: halfway between corners 1, 2, 3, 4 is exactly `from(10) / 4` |
| Terrain.HalfwayBlend | src/terrain.rs:109-115 | at (0.5, 0.5) the sampler blends the four test corners with half weights |
| Raster.OffsetFormula | src/renderer.rs:15 | the pixel offset is `i * 4 + row * pitch` |
| Raster.OffsetMonotone | src/renderer.rs:15 | a lower row has a smaller offset |
| Raster.DecodeOffset | src/renderer.rs:15-18 | a colour byte of pixel (i, row) decodes back to that column, row and channel |
| Raster.EncodeOffset | src/renderer.rs:15 | every byte offset is some pixel's offset plus a channel |
| Raster.PixelBytes | src/renderer.rs:15-18 | the three bytes written for a pixel are exactly the colour bytes that decode to it |
| Raster.SetPixelBytes | src/renderer.rs:14-19 | writing a pixel sets its three colour bytes, in storage order, and keeps every other byte, the fourth included |
| Raster.PaintSpanBytes | src/renderer.rs:21-33 | painting a span writes exactly the colour bytes of that column between the two heights, counted from the bottom; nothing when jmin >= jmax |
| Raster.ColumnFits | src/renderer.rs:110-118 | every span `draw` paints lies inside the buffer |
| Raster.Step | src/renderer.rs:89-120 | one column at one depth keeps the frame's shape and `max_height` non-negative |
| Raster.Start | src/renderer.rs:54-55 | `max_height` starts as zero in every column |
| Raster.FirstCoverIsNearest | src/renderer.rs:57-121 | the first covering depth is the nearest depth whose height rises above y; when there is none, no depth rises above y |
| Raster.SkylineCovers | src/renderer.rs:89-119 | a column's highest height so far exceeds y exactly when some depth covers y |
| Raster.SkylineNonDecreasing | src/renderer.rs:89-119 | `max_height` of a column never decreases from one depth to the next |
| Raster.SpansDisjoint | src/renderer.rs:110-119 | the span painted at one depth ends at or below where any farther depth's span starts, so spans never overlap |
| Raster.SweepTops | src/renderer.rs:74-121 | after a sweep each column's `max_height` is the larger of the old one and its new height |
| Raster.SweepBytes | src/renderer.rs:74-121 | a sweep paints each column from its old `max_height` to its new height, capped at the screen, and nothing else |
| Raster.LayersTops | src/renderer.rs:57-122 | after depths lo .. z-1, each column's `max_height` is the highest height seen |
| Raster.LayersBytes | src/renderer.rs:57-122 | after depths lo .. z-1, every byte holds the nearest covering depth's colour, or keeps its value |
| Raster.RenderShowsNearestCover | src/renderer.rs:53-124 | painter's theorem: each colour byte of an on-screen pixel shows the nearest covering depth's colour; all other bytes keep the sky |
| Renderer.SetColor | src/renderer.rs:14-19 | writes blue, green, red at `i * 4 + j * pitch` and changes nothing else |
| Renderer.DrawLine | src/renderer.rs:21-33 | paints column i from height jmin up to jmax, bottom up |
| Renderer.Along | src/renderer.rs:75-77 | the sample of column i is at `left + stride * i` |
| Renderer.Project | src/renderer.rs:80-87 | the projected height is never negative |
| Renderer.ProjectMonotone | src/renderer.rs:80-87 | higher terrain never projects lower |
| Renderer.ProjectAtCameraHeight | src/renderer.rs:80-87 | terrain at the camera's height projects onto the horizon, clamped at zero |
| Renderer.SkyWeight | src/renderer.rs:96-97 | past the fog start the sky weight lies in [0, 1) |
| Renderer.SkyWeightMonotone | src/renderer.rs:96-97 | the fog thickens with depth |
| Renderer.FogChannel | src/renderer.rs:101-103 | a fogged channel is the weighted sum of texel and sky rounded down, so it lies between the two |
| Renderer.Fogged | src/renderer.rs:95-108 | without fog, or before the fog start, the texel is used as is; otherwise each channel is the texel and sky blended by the sky weight, and alpha is 0 |
| Renderer.SamplesShareCell | src/renderer.rs:75-93 | a column reads the height and the texel from the same cell, and paints the projected height in the fogged texel |
| Renderer.Draw | src/renderer.rs:35-125 | the frame becomes the painter's-algorithm render of depths 1 .. distance_max-1; with distance_max <= 1 it is unchanged |
| Renderer.DrawDepths | src/renderer.rs:53-124 | the depth loop produces the render of depths 1 .. distance_max-1 |
| Renderer.DrawDepth | src/renderer.rs:74-121 | one depth sweeps every column left to right |
| Renderer.DrawColumn | src/renderer.rs:75-120 | one column paints only above its `max_height`, then raises it |
| ClassicDraw.SetColor | src/draw.rs:10-15 | writes red, green, blue at `i * 4 + j * pitch` and changes nothing else |
| ClassicDraw.DrawLine | src/draw.rs:17-29 | paints column i from height jmin up to jmax, bottom up |
| ClassicDraw.Coord | src/draw.rs:81-90 | the sample of column i is `(fixed_left + i * fixed_stride) >> 11`, rounded down |
| ClassicDraw.Project | src/draw.rs:85-99 | the projected height is never negative |
| ClassicDraw.ProjectMonotone | src/draw.rs:85-99 | higher terrain never projects lower |
| ClassicDraw.ProjectAtCameraHeight | src/draw.rs:92-99 | terrain at the camera's height projects onto the horizon, clamped at zero |
| ClassicDraw.SamplesShareCell | src/draw.rs:80-99 | height and texel are read at the same cell, the scan line's position shifted down by 11 bits |
| ClassicDraw.Draw | src/draw.rs:31-117 | the frame becomes the painter's-algorithm render of depths 1 .. 499 |
| ClassicDraw.DrawDepths | src/draw.rs:50-116 | the depth loop, fixed at 1 .. 499, produces that render |
| ClassicDraw.DrawDepth | src/draw.rs:80-113 | one depth sweeps every column left to right |
| ClassicDraw.DrawColumn | src/draw.rs:81-112 | one column paints only above its `max_height`, then raises it |
| Timing.SumAppend | src/stats.rs:13 | the total of two histories is the sum of their totals |
| Timing.SumGrows | src/stats.rs:13 | the total time never decreases as events are added |
| Timing.TimeBelowSum | src/stats.rs:13 | each added time counts toward the total |
| Timing.Stats.constructor | src/stats.rs:4-8 | the default counter has no events and no time |
| Timing.Stats.Add | src/stats.rs:11-14 | `add(t)` counts one more event and t more time; after any history the count is its length and the total its sum |

## Left out

- Floating point. `From<f32>`, `Into<f32>` and `Debug` of `FixedInt10` are not modelled, nor the `fixedpoint_div` and `across_types` tests that need them, nor the float assertions of `same_type` (the `3.` round trip) and of `equality` (the two `FixedInt10::from(0.)` comparisons); test inputs such as 2.5 are written as raw values (2560). The float scan-line geometry of both passes (`left`, `right`, `stride` from the camera's angles and position) is an input: one scan line per depth.
- The camera's position and angles, `Camera::update_angle` and the configuration file loader are not part of this model. The draw passes take the camera's height and horizon, and the fog settings, as plain values.
- Image decoding (`lodepng::decode_file`) is an input. The loaders take the decoder's outcome, and the text of their error messages is reduced to three error kinds.
- SDL calls: `get_pitch`, `get_width`/`get_height`, `with_lock` and `screen.fill`. The frame is the locked byte buffer with its pitch, and the renderer's buffer is taken as already filled with the sky colour (80, 120, 250). The sky fill itself, whose bytes depend on the surface's pixel format, is not modelled.
- Integer overflow. Wrap-around of `i32`, `u32` and `usize` arithmetic is excluded by preconditions, not reproduced; the `usize` conversion's reinterpretation as `u32` is modelled.
- The older pass reads the map and texture through an integer-coordinate `get` that the current terrain sampler does not have. It also reads the camera's height as an `i32`. Its two samplers are parameters of the scene.
- `Stats::avg` and `Display`: float division and formatting.
- Renderer.Project: the contract states only that the height is non-negative; the value itself is constrained by Renderer.ProjectMonotone and Renderer.ProjectAtCameraHeight.
- ClassicDraw.Project: the same as Renderer.Project, with ClassicDraw.ProjectMonotone and ClassicDraw.ProjectAtCameraHeight.
- Terrain.GetHeightInterpolated: the contract states only the range; the value is pinned down at grid points, by periodicity and by the test vectors.
- FixedInt.DivInt: division by zero and `i32::MIN / -1`, both of which panic in Rust, are excluded by preconditions. The core divides only by the depth z >= 1 (both passes) and by `distance_max - fog_start`, which is positive whenever the fog applies, since then fog_start < z < distance_max.
- FixedInt.And: states that the result is a whole number of units within [0, k] for k >= 0, not its full bit pattern for arbitrary masks.
