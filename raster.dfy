/**
 * The painter's algorithm shared by both draw passes, as pure functions over
 * the bytes of the frame.
 *
 * The frame is a byte buffer. Pixel (i, row) starts at byte `i * 4 + row * pitch`;
 * its first three bytes carry the colour and the fourth is never written.
 * Heights count up from the bottom of the screen: height `y` is row `h - 1 - y`.
 * The depths are swept from near to far. For each depth and each column, a terrain
 * sample projects to a height. The column is painted from the highest height drawn
 * so far up to that height (capped at the screen), and then the column's highest
 * height is raised.
 */
module Raster {
  import opened Bits

  datatype Option<T> = None | Some(value: T)

  /** The three colour bytes of a pixel, in the order they are stored. */
  datatype Pixel = Pixel(c0: U8, c1: U8, c2: U8)

  function Channel(p: Pixel, k: int): U8
    requires 0 <= k < 3
  {
    if k == 0 then p.c0 else if k == 1 then p.c1 else p.c2
  }

  /**
   * Byte offset of the pixel in column `i`, screen row `row`: `i * 4 + row * pitch`
   * (OffsetFormula), built up one row at a time so that the proofs below stay linear.
   */
  function Offset(i: nat, row: nat, pitch: nat): nat {
    if row == 0 then i * 4 else Offset(i, row - 1, pitch) + pitch
  }

  lemma {:induction false} OffsetFormula(i: nat, row: nat, pitch: nat)
    ensures Offset(i, row, pitch) == i * 4 + row * pitch
  {
    if row > 0 {
      OffsetFormula(i, row - 1, pitch);
      assert (row - 1) * pitch + pitch == row * pitch;
    }
  }

  /** Lower rows start at higher offsets. */
  lemma {:induction false} OffsetMonotone(i: nat, r1: nat, r2: nat, pitch: nat)
    requires r1 <= r2
    ensures Offset(i, r1, pitch) <= Offset(i, r2, pitch)
    decreases r2
  {
    if r1 < r2 {
      OffsetMonotone(i, r1, r2 - 1, pitch);
    }
  }

  /** Within a row, column `i` starts `4 * i` bytes after the row. */
  lemma {:induction false} OffsetColumn(i: nat, row: nat, pitch: nat)
    ensures Offset(i, row, pitch) == Offset(0, row, pitch) + 4 * i
  {
    if row > 0 {
      OffsetColumn(i, row - 1, pitch);
    }
  }

  /** The buffer after the three colour bytes of the pixel at byte `o` are set. */
  function SetPixel(img: seq<U8>, o: nat, p: Pixel): (r: seq<U8>)
    requires o + 2 < |img|
    ensures |r| == |img|
  {
    img[o := p.c0][o + 1 := p.c1][o + 2 := p.c2]
  }

  /** Setting a pixel changes its three colour bytes and no other byte. */
  lemma SetPixelBytes(img: seq<U8>, o: nat, p: Pixel, k: nat)
    requires o + 2 < |img| && k < |img|
    ensures SetPixel(img, o, p)[k] == if o <= k < o + 3 then Channel(p, k - o) else img[k]
  {
  }

  /**
   * Painting column `i` from height `lo` up to height `hi` on a screen `h` rows
   * tall stays inside a buffer of `size` bytes: the lowest height is the
   * furthest row, so its pixel is the last one written.
   */
  predicate SpanFits(size: nat, i: nat, lo: int, hi: int, h: int, pitch: nat) {
    0 <= lo && (lo < hi ==> hi <= h && Offset(i, h - 1 - lo, pitch) + 2 < size)
  }

  /** The buffer after column `i` is painted from height `lo` up to (not including) height `hi`. */
  function PaintSpan(img: seq<U8>, i: nat, lo: int, hi: int, h: int, pitch: nat, p: Pixel): (r: seq<U8>)
    requires SpanFits(|img|, i, lo, hi, h, pitch)
    ensures |r| == |img|
    decreases hi - lo
  {
    if hi <= lo then img
    else
      OffsetMonotone(i, h - hi, h - 1 - lo, pitch);
      SetPixel(PaintSpan(img, i, lo, hi - 1, h, pitch, p), Offset(i, h - hi, pitch), p)
  }

  /** The screen row of byte `o`: how many whole rows precede it. */
  function RowOf(o: nat, pitch: nat): nat
    requires pitch > 0
    decreases o
  {
    if o < pitch then 0 else 1 + RowOf(o - pitch, pitch)
  }

  /** The position of byte `o` within its row. */
  function InRow(o: nat, pitch: nat): (r: nat)
    requires pitch > 0
    ensures r < pitch
    decreases o
  {
    if o < pitch then o else InRow(o - pitch, pitch)
  }

  /** The column of byte `o`, and which of the pixel's four bytes it is. */
  function ColumnOf(o: nat, pitch: nat): nat
    requires pitch > 0
  {
    InRow(o, pitch) / 4
  }

  function ChannelOf(o: nat, pitch: nat): nat
    requires pitch > 0
  {
    InRow(o, pitch) % 4
  }

  /** Each colour byte of a pixel that lies within its row decodes to that pixel and channel. */
  lemma {:induction false} DecodeOffset(i: nat, row: nat, k: nat, pitch: nat)
    requires k < 3 && 4 * i + 3 <= pitch
    ensures RowOf(Offset(i, row, pitch) + k, pitch) == row
    ensures ColumnOf(Offset(i, row, pitch) + k, pitch) == i
    ensures ChannelOf(Offset(i, row, pitch) + k, pitch) == k
  {
    if row > 0 {
      DecodeOffset(i, row - 1, k, pitch);
    } else {
      DivModUnique(4 * i + k, 4, i, k);
    }
  }

  /** Every byte is the offset of its decoded pixel plus its decoded channel. */
  lemma {:induction false} EncodeOffset(o: nat, pitch: nat)
    requires pitch > 0
    ensures o == Offset(ColumnOf(o, pitch), RowOf(o, pitch), pitch) + ChannelOf(o, pitch)
    decreases o
  {
    var c := ColumnOf(o, pitch);
    DivModFacts(InRow(o, pitch), 4);
    if o >= pitch {
      EncodeOffset(o - pitch, pitch);
      assert ColumnOf(o - pitch, pitch) == c;
    }
  }

  /** The bytes written for pixel (i, row) are exactly the colour bytes that decode to it. */
  lemma PixelBytes(i: nat, row: nat, pitch: nat, o: nat)
    requires 4 * i + 3 <= pitch
    ensures Offset(i, row, pitch) <= o < Offset(i, row, pitch) + 3 <==>
      RowOf(o, pitch) == row && ColumnOf(o, pitch) == i && ChannelOf(o, pitch) < 3
    ensures Offset(i, row, pitch) <= o < Offset(i, row, pitch) + 3 ==>
      ChannelOf(o, pitch) == o - Offset(i, row, pitch)
  {
    var base := Offset(i, row, pitch);
    if base <= o < base + 3 {
      DecodeOffset(i, row, o - base, pitch);
    } else {
      EncodeOffset(o, pitch);
    }
  }

  /** Byte `o` is a colour byte of column `i` at a height in [lo, hi). */
  predicate InColumnSpan(o: nat, pitch: nat, i: int, lo: int, hi: int, h: int)
    requires pitch > 0
  {
    ColumnOf(o, pitch) == i && ChannelOf(o, pitch) < 3 && lo <= h - 1 - RowOf(o, pitch) < hi
  }

  /**
   * Painting a span writes the colour into exactly the colour bytes of that
   * column between the two heights; every other byte (other columns, other
   * heights, the fourth byte of each pixel, the padding after the last
   * column) keeps its value.
   */
  lemma {:induction false} PaintSpanBytes(img: seq<U8>, i: nat, lo: int, hi: int, h: int, pitch: nat, p: Pixel, o: nat)
    requires SpanFits(|img|, i, lo, hi, h, pitch) && 4 * i + 3 <= pitch && o < |img|
    ensures PaintSpan(img, i, lo, hi, h, pitch, p)[o] ==
      if InColumnSpan(o, pitch, i, lo, hi, h) then Channel(p, ChannelOf(o, pitch)) else img[o]
    decreases hi - lo
  {
    if hi > lo {
      PaintSpanBytes(img, i, lo, hi - 1, h, pitch, p, o);
      OffsetMonotone(i, h - hi, h - 1 - lo, pitch);
      SetPixelBytes(PaintSpan(img, i, lo, hi - 1, h, pitch, p), Offset(i, h - hi, pitch), p, o);
      PixelBytes(i, h - hi, pitch, o);
    }
  }

  /** The screen: `width` columns, `height` rows, rows `pitch` bytes apart. */
  datatype Screen = Screen(width: nat, height: nat, pitch: nat)

  /**
   * The screen's pixels lie in a buffer of `size` bytes: it holds `height` rows
   * of `pitch` bytes, and each row's pixels end before the next row starts.
   */
  predicate Fits(s: Screen, size: nat) {
    0 < s.pitch && 4 * s.width <= s.pitch && Offset(0, s.height, s.pitch) <= size
  }

  /** Any span of a column of the screen that stays below the screen's top fits in the buffer. */
  lemma ColumnFits(s: Screen, size: nat, i: nat, lo: int, hi: int)
    requires Fits(s, size) && i < s.width && 0 <= lo && (lo < hi ==> hi <= s.height)
    ensures SpanFits(size, i, lo, hi, s.height, s.pitch)
  {
    if lo < hi {
      OffsetMonotone(i, s.height - 1 - lo, s.height - 1, s.pitch);
      OffsetColumn(i, s.height - 1, s.pitch);
    }
  }

  /** The buffer together with the highest height drawn so far in each column (`max_height`). */
  datatype Frame = Frame(pixels: seq<U8>, maxHeight: seq<int>)

  predicate Good(s: Screen, f: Frame) {
    Fits(s, |f.pixels|) && |f.maxHeight| == s.width &&
    forall c | 0 <= c < |f.maxHeight| :: f.maxHeight[c] >= 0
  }

  /** One column at one depth: a sample projected to height `y` paints what it newly uncovers. */
  function Step(s: Screen, f: Frame, i: nat, y: int, p: Pixel): (r: Frame)
    requires Good(s, f) && i < s.width
    ensures Good(s, r) && |r.pixels| == |f.pixels|
  {
    var top := f.maxHeight[i];
    if y > top then
      ColumnFits(s, |f.pixels|, i, top, Min(y, s.height));
      Frame(PaintSpan(f.pixels, i, top, Min(y, s.height), s.height, s.pitch, p), f.maxHeight[i := y])
    else f
  }

  /** Columns 0 .. n-1 of depth `z`, left to right. */
  function Sweep(s: Screen, f: Frame, z: int, n: nat, height: (int, int) -> int, color: (int, int) -> Pixel): (r: Frame)
    requires Good(s, f) && n <= s.width
    ensures Good(s, r) && |r.pixels| == |f.pixels|
  {
    if n == 0 then f
    else Step(s, Sweep(s, f, z, n - 1, height, color), n - 1, height(z, n - 1), color(z, n - 1))
  }

  /** Depths lo .. z-1, near to far, each swept over every column. */
  function Layers(s: Screen, f: Frame, lo: int, z: int, height: (int, int) -> int, color: (int, int) -> Pixel): (r: Frame)
    requires Good(s, f)
    ensures Good(s, r) && |r.pixels| == |f.pixels|
    decreases z - lo
  {
    if z <= lo then f
    else Sweep(s, Layers(s, f, lo, z - 1, height, color), z - 1, s.width, height, color)
  }

  /** Before the first depth no column has been drawn. */
  function Start(s: Screen, pixels: seq<U8>): (f: Frame)
    requires Fits(s, |pixels|)
    ensures Good(s, f) && f.pixels == pixels
    ensures forall c | 0 <= c < s.width :: f.maxHeight[c] == 0
  {
    Frame(pixels, seq(s.width, _ => 0))
  }

  /** The frame drawn over depths lo .. hi-1 on top of the given buffer. */
  function Render(s: Screen, pixels: seq<U8>, lo: int, hi: int, height: (int, int) -> int, color: (int, int) -> Pixel): seq<U8>
    requires Fits(s, |pixels|)
  {
    Layers(s, Start(s, pixels), lo, hi, height, color).pixels
  }

  /** The highest height of column `c` over depths lo .. z-1, and zero before any depth. */
  function Skyline(height: (int, int) -> int, c: int, lo: int, z: int): int
    decreases z - lo
  {
    if z <= lo then 0 else Max(Skyline(height, c, lo, z - 1), height(z - 1, c))
  }

  /** The nearest depth in lo .. z-1 whose height in column `c` rises above height `y`. */
  function FirstCover(height: (int, int) -> int, c: int, y: int, lo: int, z: int): Option<int>
    decreases z - lo
  {
    if z <= lo then None
    else
      var nearer := FirstCover(height, c, y, lo, z - 1);
      if nearer.Some? then nearer
      else if height(z - 1, c) > y then Some(z - 1)
      else None
  }

  /** FirstCover is the nearest covering depth, and None means no depth covers the height. */
  lemma {:induction false} FirstCoverIsNearest(height: (int, int) -> int, c: int, y: int, lo: int, z: int)
    ensures FirstCover(height, c, y, lo, z).Some? ==>
      var d := FirstCover(height, c, y, lo, z).value;
      lo <= d < z && height(d, c) > y && forall e | lo <= e < d :: height(e, c) <= y
    ensures FirstCover(height, c, y, lo, z).None? ==> forall e | lo <= e < z :: height(e, c) <= y
    decreases z - lo
  {
    if z > lo {
      FirstCoverIsNearest(height, c, y, lo, z - 1);
    }
  }

  /** A height is covered by some depth exactly when the skyline rises above it. */
  lemma {:induction false} SkylineCovers(height: (int, int) -> int, c: int, y: int, lo: int, z: int)
    requires y >= 0
    ensures Skyline(height, c, lo, z) > y <==> FirstCover(height, c, y, lo, z).Some?
    decreases z - lo
  {
    if z > lo {
      SkylineCovers(height, c, y, lo, z - 1);
    }
  }

  /** The highest height drawn in a column never decreases from one depth to the next. */
  lemma {:induction false} SkylineNonDecreasing(height: (int, int) -> int, c: int, lo: int, z1: int, z2: int)
    requires z1 <= z2
    ensures Skyline(height, c, lo, z1) <= Skyline(height, c, lo, z2)
    decreases z2 - z1
  {
    if z1 < z2 {
      SkylineNonDecreasing(height, c, lo, z1, z2 - 1);
    }
  }

  /**
   * Spans of one column never overlap: the span painted at depth d ends at
   * Min(height, screen height), which is at or below the start (the skyline)
   * of the span painted at any farther depth e.
   */
  lemma SpansDisjoint(height: (int, int) -> int, c: int, lo: int, d: int, e: int, screenHeight: int)
    requires lo <= d < e
    ensures Min(height(d, c), screenHeight) <= Skyline(height, c, lo, e)
  {
    SkylineNonDecreasing(height, c, lo, d + 1, e);
  }

  /** After a sweep of the first n columns, each of them has been raised to its new height if that is higher. */
  lemma {:induction false} SweepTops(s: Screen, f: Frame, z: int, n: nat, height: (int, int) -> int, color: (int, int) -> Pixel, c: nat)
    requires Good(s, f) && n <= s.width && c < s.width
    ensures Sweep(s, f, z, n, height, color).maxHeight[c] ==
      if c < n then Max(f.maxHeight[c], height(z, c)) else f.maxHeight[c]
  {
    if n > 0 {
      SweepTops(s, f, z, n - 1, height, color, c);
      SweepTops(s, f, z, n - 1, height, color, n - 1);
    }
  }

  /** Byte `o` is painted by the sweep of the first n columns of depth `z` over frame `f`. */
  predicate PaintedBySweep(s: Screen, f: Frame, z: int, n: nat, height: (int, int) -> int, o: nat)
    requires Good(s, f) && n <= s.width
  {
    var c := ColumnOf(o, s.pitch);
    0 <= c < n && InColumnSpan(o, s.pitch, c, f.maxHeight[c], Min(height(z, c), s.height), s.height)
  }

  /** A sweep paints, in each column, the span between the old highest height and the new capped height. */
  lemma {:induction false} SweepBytes(s: Screen, f: Frame, z: int, n: nat, height: (int, int) -> int, color: (int, int) -> Pixel, o: nat)
    requires Good(s, f) && n <= s.width && o < |f.pixels|
    ensures Sweep(s, f, z, n, height, color).pixels[o] ==
      if PaintedBySweep(s, f, z, n, height, o)
      then Channel(color(z, ColumnOf(o, s.pitch)), ChannelOf(o, s.pitch))
      else f.pixels[o]
  {
    if n > 0 {
      var i := n - 1;
      var g := Sweep(s, f, z, i, height, color);
      SweepBytes(s, f, z, i, height, color, o);
      SweepTops(s, f, z, i, height, color, i);
      assert g.maxHeight[i] == f.maxHeight[i];
      var y := height(z, i);
      if y > f.maxHeight[i] {
        ColumnFits(s, |g.pixels|, i, f.maxHeight[i], Min(y, s.height));
        PaintSpanBytes(g.pixels, i, f.maxHeight[i], Min(y, s.height), s.height, s.pitch, color(z, i), o);
      }
    }
  }

  lemma BelowCap(y: int, h: int, cap: int)
    requires y < cap
    ensures y < Min(h, cap) <==> y < h
  {
  }

  /** What byte `o` of the rendered frame shows: the colour of the nearest covering depth, else the original byte. */
  function Shown(s: Screen, pixels: seq<U8>, lo: int, z: int, height: (int, int) -> int, color: (int, int) -> Pixel, o: nat): U8
    requires Fits(s, |pixels|) && o < |pixels|
  {
    var c, row, k := ColumnOf(o, s.pitch), RowOf(o, s.pitch), ChannelOf(o, s.pitch);
    if c < s.width && k < 3 && row < s.height then
      match FirstCover(height, c, s.height - 1 - row, lo, z)
      case Some(d) => Channel(color(d, c), k)
      case None => pixels[o]
    else pixels[o]
  }

  /** After depths lo .. z-1, each column's highest height is its skyline. */
  lemma {:induction false} LayersTops(s: Screen, pixels: seq<U8>, lo: int, z: int, height: (int, int) -> int, color: (int, int) -> Pixel, c: nat)
    requires Fits(s, |pixels|) && c < s.width
    ensures Layers(s, Start(s, pixels), lo, z, height, color).maxHeight[c] == Skyline(height, c, lo, z)
    decreases z - lo
  {
    if z > lo {
      LayersTops(s, pixels, lo, z - 1, height, color, c);
      SweepTops(s, Layers(s, Start(s, pixels), lo, z - 1, height, color), z - 1, s.width, height, color, c);
    }
  }

  /** After depths lo .. z-1, every byte shows what Shown says. */
  lemma {:induction false} LayersBytes(s: Screen, pixels: seq<U8>, lo: int, z: int, height: (int, int) -> int, color: (int, int) -> Pixel, o: nat)
    requires Fits(s, |pixels|) && o < |pixels|
    ensures Layers(s, Start(s, pixels), lo, z, height, color).pixels[o] == Shown(s, pixels, lo, z, height, color, o)
    decreases z - lo
  {
    if z > lo {
      var f := Layers(s, Start(s, pixels), lo, z - 1, height, color);
      LayersBytes(s, pixels, lo, z - 1, height, color, o);
      SweepBytes(s, f, z - 1, s.width, height, color, o);
      assert Layers(s, Start(s, pixels), lo, z, height, color) == Sweep(s, f, z - 1, s.width, height, color);
      var c, row, k := ColumnOf(o, s.pitch), RowOf(o, s.pitch), ChannelOf(o, s.pitch);
      if c < s.width && k < 3 && row < s.height {
        var y := s.height - 1 - row;
        LayersTops(s, pixels, lo, z - 1, height, color, c);
        SkylineCovers(height, c, y, lo, z - 1);
        var nearer := FirstCover(height, c, y, lo, z - 1);
        assert FirstCover(height, c, y, lo, z) ==
          if nearer.Some? then nearer else if height(z - 1, c) > y then Some(z - 1) else None;
        if nearer.Some? {
          assert !PaintedBySweep(s, f, z - 1, s.width, height, o);
        } else {
          assert f.maxHeight[c] <= y;
          BelowCap(y, height(z - 1, c), s.height);
          assert PaintedBySweep(s, f, z - 1, s.width, height, o) <==> height(z - 1, c) > y;
        }
      } else {
        assert !PaintedBySweep(s, f, z - 1, s.width, height, o);
      }
    }
  }

  /**
   * The painter's theorem: in the rendered frame, each colour byte of a
   * pixel at height y in column c holds the colour, at that column, of the
   * nearest depth whose projected height rises above y; where no depth
   * does, and in every byte that is not a colour byte of an on-screen
   * pixel, the buffer keeps its original value.
   */
  lemma RenderShowsNearestCover(s: Screen, pixels: seq<U8>, lo: int, hi: int, height: (int, int) -> int, color: (int, int) -> Pixel, o: nat)
    requires Fits(s, |pixels|) && o < |pixels|
    ensures |Render(s, pixels, lo, hi, height, color)| == |pixels|
    ensures Render(s, pixels, lo, hi, height, color)[o] == Shown(s, pixels, lo, hi, height, color, o)
  {
    LayersBytes(s, pixels, lo, hi, height, color, o);
  }
}
