/**
  Zone brightness (`averageBrightness` in script.js) and the default wall zone
  (`calibrateZone`).

  A frame is the RGBA byte buffer of a canvas `ImageData`: four bytes per pixel,
  rows of `width` pixels, the pixel at column x of row y starting at byte
  (y * width + x) * 4. The brightness of a pixel is its ITU-R BT.601 luma
  0.299 R + 0.587 G + 0.114 B; the alpha byte is never read.
 */
module Brightness {

  newtype byte = b: int | 0 <= b < 256

  /** A rectangle of pixels: columns x .. x+w-1 of rows y .. y+h-1. */
  datatype Zone = Zone(x: nat, y: nat, w: nat, h: nat)

  /** The zone lies inside a width-by-height frame. */
  predicate ZoneWithin(zone: Zone, width: nat, height: nat) {
    zone.x + zone.w <= width && zone.y + zone.h <= height
  }

  function Luma(r: byte, g: byte, b: byte): real {
    0.299 * r as int as real + 0.587 * g as int as real + 0.114 * b as int as real
  }

  /** The three colour bytes of a pixel inside a width-by-height frame lie inside its buffer. */
  lemma PixelInside(width: nat, height: nat, x: nat, y: nat)
    requires x < width && y < height
    ensures (y * width + x) * 4 + 2 < width * height * 4
  {
    assert y * width + x < (y + 1) * width;
    assert (y + 1) * width <= height * width by {
      var d := height - (y + 1);
      assert height * width == (y + 1) * width + d * width;
    }
  }

  /** The byte offset `(y * width + x) * 4` of the pixel at column x of row y. */
  function PixelIndex(width: nat, x: nat, y: nat): nat {
    (y * width + x) * 4
  }

  /** Moving j pixels to the right moves 4 j bytes on. */
  lemma PixelIndexShift(width: nat, x: nat, y: nat, j: nat)
    ensures PixelIndex(width, x + j, y) == PixelIndex(width, x, y) + 4 * j
  {
  }

  /**
    The luma of the pixel whose red byte is at offset idx. The guard only matters
    past the end of the buffer, which `AverageBrightness` never reads: for a zone
    inside the frame every pixel takes the first branch (`PixelInside`).
   */
  function LumaAt(pixels: seq<byte>, idx: nat): real {
    if idx + 2 < |pixels| then Luma(pixels[idx], pixels[idx + 1], pixels[idx + 2]) else 0.0
  }

  /** The luma of the pixel at column x of row y. */
  function PixelLuma(pixels: seq<byte>, width: nat, x: nat, y: nat): real {
    LumaAt(pixels, PixelIndex(width, x, y))
  }

  /** The luma of n neighbouring pixels, the first at byte offset start, added left to right. */
  function RunSum(pixels: seq<byte>, start: nat, n: nat): real {
    if n == 0 then 0.0 else RunSum(pixels, start, n - 1) + LumaAt(pixels, start + 4 * (n - 1))
  }

  /** The luma of the zone's pixels in row y. */
  function RowSum(pixels: seq<byte>, width: nat, zone: Zone, y: nat): real {
    RunSum(pixels, PixelIndex(width, zone.x, y), zone.w)
  }

  /** The luma of the zone's pixels in rows zone.y .. y1-1, row by row. */
  function ZoneSumTo(pixels: seq<byte>, width: nat, zone: Zone, y1: nat): real
    requires zone.y <= y1
    decreases y1 - zone.y
  {
    if y1 == zone.y then 0.0
    else ZoneSumTo(pixels, width, zone, y1 - 1) + RowSum(pixels, width, zone, y1 - 1)
  }

  /** The mean luma over the zone, and 0 for a zone without pixels. */
  function ZoneAverage(pixels: seq<byte>, width: nat, zone: Zone): real {
    if zone.w * zone.h == 0 then 0.0
    else ZoneSumTo(pixels, width, zone, zone.y + zone.h) / (zone.w * zone.h) as real
  }

  /**
    `averageBrightness(imageData, zone)`: the nested loops visit the zone row by
    row, adding each pixel's luma and counting pixels; the count ends at exactly
    w * h. Every index read lies inside the buffer when the zone lies inside the
    frame, and the result is a brightness between 0 and 255.
   */
  method AverageBrightness(data: array<byte>, width: nat, height: nat, zone: Zone) returns (avg: real)
    requires data.Length == width * height * 4
    requires ZoneWithin(zone, width, height)
    ensures avg == ZoneAverage(data[..], width, zone)
    ensures 0.0 <= avg <= 255.0
  {
    ghost var pixels := data[..];
    var sum := 0.0;
    var count := 0;
    var y := zone.y;
    while y < zone.y + zone.h
      invariant zone.y <= y <= zone.y + zone.h
      invariant sum == ZoneSumTo(pixels, width, zone, y)
      invariant count == Area(y - zone.y, zone.w)
    {
      ghost var start := PixelIndex(width, zone.x, y);
      var x := zone.x;
      while x < zone.x + zone.w
        invariant zone.x <= x <= zone.x + zone.w
        invariant sum == ZoneSumTo(pixels, width, zone, y) + RunSum(pixels, start, x - zone.x)
        invariant count == Area(y - zone.y, zone.w) + (x - zone.x)
      {
        var idx := (y * width + x) * 4;
        assert idx == start + 4 * (x - zone.x) by {
          PixelIndexShift(width, zone.x, y, x - zone.x);
        }
        assert idx + 2 < data.Length by {
          PixelInside(width, height, x, y);
        }
        var r := data[idx];
        var g := data[idx + 1];
        var b := data[idx + 2];
        sum := sum + (0.299 * r as int as real + 0.587 * g as int as real + 0.114 * b as int as real);
        count := count + 1;
        x := x + 1;
      }
      y := y + 1;
    }
    assert count == zone.w * zone.h by {
      AreaIsProduct(zone.h, zone.w);
    }
    avg := if count == 0 then 0.0 else sum / count as real;
    ZoneAverageBounded(pixels, width, zone);
  }

  /** The number of pixels in `rows` full rows of a zone `w` pixels wide, counted row by row. */
  function Area(rows: nat, w: nat): nat {
    if rows == 0 then 0 else Area(rows - 1, w) + w
  }

  lemma {:induction false} AreaIsProduct(rows: nat, w: nat)
    ensures Area(rows, w) == w * rows
  {
    if rows > 0 {
      AreaIsProduct(rows - 1, w);
      assert w * rows == w * (rows - 1) + w;
    }
  }

  lemma LumaBounded(r: byte, g: byte, b: byte)
    ensures 0.0 <= Luma(r, g, b) <= 255.0
  {
  }

  lemma {:induction false} RunSumBounded(pixels: seq<byte>, start: nat, n: nat)
    ensures 0.0 <= RunSum(pixels, start, n) <= 255.0 * n as real
  {
    if n > 0 {
      RunSumBounded(pixels, start, n - 1);
      var idx := start + 4 * (n - 1);
      if idx + 2 < |pixels| {
        LumaBounded(pixels[idx], pixels[idx + 1], pixels[idx + 2]);
      }
    }
  }

  lemma {:induction false} ZoneSumBounded(pixels: seq<byte>, width: nat, zone: Zone, y1: nat)
    requires zone.y <= y1
    ensures 0.0 <= ZoneSumTo(pixels, width, zone, y1) <= 255.0 * Area(y1 - zone.y, zone.w) as real
    decreases y1 - zone.y
  {
    if y1 > zone.y {
      ZoneSumBounded(pixels, width, zone, y1 - 1);
      RunSumBounded(pixels, PixelIndex(width, zone.x, y1 - 1), zone.w);
      assert Area(y1 - zone.y, zone.w) == Area(y1 - 1 - zone.y, zone.w) + zone.w;
    }
  }

  lemma MeanBounded(s: real, n: real)
    requires n > 0.0 && 0.0 <= s <= 255.0 * n
    ensures 0.0 <= s / n <= 255.0
  {
  }

  /** Whatever the bytes, the zone average is a brightness between 0 and 255. */
  lemma ZoneAverageBounded(pixels: seq<byte>, width: nat, zone: Zone)
    ensures 0.0 <= ZoneAverage(pixels, width, zone) <= 255.0
  {
    if zone.w * zone.h != 0 {
      var s := ZoneSumTo(pixels, width, zone, zone.y + zone.h);
      assert 0.0 <= s <= 255.0 * (zone.w * zone.h) as real by {
        ZoneSumBounded(pixels, width, zone, zone.y + zone.h);
        AreaIsProduct(zone.h, zone.w);
      }
      MeanBounded(s, (zone.w * zone.h) as real);
    }
  }

  /** level + level + ... + level, n times. */
  function Repeat(level: real, n: nat): real {
    if n == 0 then 0.0 else Repeat(level, n - 1) + level
  }

  lemma {:induction false} RepeatAdd(level: real, m: nat, n: nat)
    ensures Repeat(level, m + n) == Repeat(level, m) + Repeat(level, n)
  {
    if n > 0 {
      RepeatAdd(level, m, n - 1);
    }
  }

  lemma {:induction false} RepeatAverage(level: real, n: nat)
    requires n > 0
    ensures Repeat(level, n) / n as real == level
  {
    RepeatIsProduct(level, n);
  }

  lemma {:induction false} RepeatIsProduct(level: real, n: nat)
    ensures Repeat(level, n) == level * n as real
  {
    if n > 0 {
      RepeatIsProduct(level, n - 1);
    }
  }

  lemma {:induction false} UniformRun(pixels: seq<byte>, start: nat, n: nat, level: real)
    requires forall j :: 0 <= j < n ==> LumaAt(pixels, start + 4 * j) == level
    ensures RunSum(pixels, start, n) == Repeat(level, n)
  {
    if n > 0 {
      UniformRun(pixels, start, n - 1, level);
    }
  }

  lemma {:induction false} UniformZoneSum(pixels: seq<byte>, width: nat, zone: Zone, y1: nat, level: real)
    requires zone.y <= y1
    requires forall x, y :: zone.x <= x < zone.x + zone.w && zone.y <= y < y1 ==> PixelLuma(pixels, width, x, y) == level
    ensures ZoneSumTo(pixels, width, zone, y1) == Repeat(level, Area(y1 - zone.y, zone.w))
    decreases y1 - zone.y
  {
    if y1 > zone.y {
      var y := y1 - 1;
      var start := PixelIndex(width, zone.x, y);
      UniformZoneSum(pixels, width, zone, y, level);
      forall j | 0 <= j < zone.w
        ensures LumaAt(pixels, start + 4 * j) == level
      {
        PixelIndexShift(width, zone.x, y, j);
        assert PixelLuma(pixels, width, zone.x + j, y) == level;
      }
      UniformRun(pixels, start, zone.w, level);
      RepeatAdd(level, Area(y - zone.y, zone.w), zone.w);
    }
  }

  /** A zone whose pixels all have the same brightness reads as that brightness. */
  lemma UniformZone(pixels: seq<byte>, width: nat, zone: Zone, level: real)
    requires zone.w * zone.h != 0
    requires forall x, y :: zone.x <= x < zone.x + zone.w && zone.y <= y < zone.y + zone.h ==> PixelLuma(pixels, width, x, y) == level
    ensures ZoneAverage(pixels, width, zone) == level
  {
    UniformZoneSum(pixels, width, zone, zone.y + zone.h, level);
    AreaIsProduct(zone.h, zone.w);
    RepeatAverage(level, zone.w * zone.h);
  }

  /**
    The zone arithmetic of `calibrateZone` on a W-by-H canvas: the floors of
    78 % and 20 % of the canvas for the corner and of 18 % and 58 % for the size.
    The zone always lies inside the canvas, and it has pixels exactly when the
    canvas is at least 6 pixels wide and 2 high.
   */
  function CalibratedZone(canvasWidth: nat, canvasHeight: nat): (zone: Zone)
    ensures ZoneWithin(zone, canvasWidth, canvasHeight)
    ensures zone.w >= 1 <==> canvasWidth >= 6
    ensures zone.h >= 1 <==> canvasHeight >= 2
  {
    var W, H := canvasWidth as real, canvasHeight as real;
    Zone((W * 0.78).Floor, (H * 0.2).Floor, (W * 0.18).Floor, (H * 0.58).Floor)
  }
}
