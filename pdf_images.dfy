/**
 * Decoded raster images as the extractor sees them, and the polarity check
 * that flips the two-entry palette of a 1-bpp scan that came out negative.
 */
module PdfImages {

  /** `Color.White.ToArgb()`: the ARGB word 0xFFFFFFFF read as a signed 32-bit integer. */
  const White: int := -1

  /** The side of the square corner sample. */
  const SampleSize: nat := 50

  datatype PixelFormat = Format1bppIndexed | OtherFormat(code: int)

  /**
   * A decoded image: its pixel format, its size, the palette index of every
   * pixel (`rows[y][x]`) and its palette of ARGB colours.
   */
  datatype ImageData = ImageData(
    format: PixelFormat,
    width: nat,
    height: nat,
    rows: seq<seq<nat>>,
    palette: seq<int>)

  /** The grid has the stated size; a 1-bpp image has two palette entries and indices 0 or 1. */
  predicate WellFormed(d: ImageData) {
    && |d.rows| == d.height
    && (forall y :: 0 <= y < d.height ==> |d.rows[y]| == d.width)
    && (d.format == Format1bppIndexed ==>
          |d.palette| == 2 &&
          forall y, x :: 0 <= y < d.height && 0 <= x < |d.rows[y]| ==> d.rows[y][x] < 2)
  }

  /** The images a decoder can hand out. */
  type Image = d: ImageData | WellFormed(d) witness ImageData(OtherFormat(0), 0, 0, [], [])

  predicate OneBit(d: ImageData) {
    WellFormed(d) && d.format == Format1bppIndexed
  }

  function Min(a: nat, b: nat): nat {
    if a < b then a else b
  }

  /** `GetPixel(x, y).ToArgb() == Color.White.ToArgb()`: the pixel's palette colour is white. */
  predicate IsWhite(d: ImageData, x: nat, y: nat)
    requires OneBit(d) && x < d.width && y < d.height
  {
    d.palette[d.rows[y][x]] == White
  }

  /** The number of white pixels in column `x`, rows `0 .. h-1`. */
  function ColumnWhite(d: ImageData, x: nat, h: nat): (n: nat)
    requires OneBit(d) && x < d.width && h <= d.height
    ensures n <= h
  {
    if h == 0 then 0 else ColumnWhite(d, x, h - 1) + (if IsWhite(d, x, h - 1) then 1 else 0)
  }

  /** The number of white pixels in columns `x0 .. x1-1`, rows `0 .. h-1`. */
  function RegionWhite(d: ImageData, x0: nat, x1: nat, h: nat): (n: nat)
    requires OneBit(d) && x0 <= x1 <= d.width && h <= d.height
    decreases x1 - x0
  {
    if x1 == x0 then 0 else RegionWhite(d, x0, x1 - 1, h) + ColumnWhite(d, x1 - 1, h)
  }

  /** The top-left sample, min(W,50) by min(H,50) pixels, is more than half white. */
  predicate TopLeftWhite(d: ImageData)
    requires OneBit(d)
  {
    var w := Min(d.width, SampleSize);
    var h := Min(d.height, SampleSize);
    RegionWhite(d, 0, w, h) > w * h / 2
  }

  /**
   * The top-right sample passes: only taken when W > 50; it covers the 51
   * columns W-51 .. W-1 and rows 0 .. min(H,50)-1, and is compared with half
   * of 50 * min(H,50).
   */
  predicate TopRightWhite(d: ImageData)
    requires OneBit(d)
  {
    var h := Min(d.height, SampleSize);
    d.width > SampleSize && RegionWhite(d, d.width - (SampleSize + 1), d.width, h) > SampleSize * h / 2
  }

  /** Neither corner sample is mostly white: the scan is taken to be negative. */
  predicate LooksNegative(d: ImageData)
    requires OneBit(d)
  {
    !TopLeftWhite(d) && !TopRightWhite(d)
  }

  /** The two palette entries exchanged. */
  function Swapped(p: seq<int>): (q: seq<int>)
    requires |p| == 2
    ensures |q| == 2
  {
    [p[1], p[0]]
  }

  /** Swapping twice restores the palette. */
  lemma SwappedTwice(p: seq<int>)
    requires |p| == 2
    ensures Swapped(Swapped(p)) == p
  {
  }

  /** The effect of the polarity check on a 1-bpp image. */
  function Corrected(d: ImageData): (c: ImageData)
    requires OneBit(d)
    ensures OneBit(c)
    ensures c.format == d.format && c.width == d.width && c.height == d.height && c.rows == d.rows
    ensures c.palette == d.palette || c.palette == Swapped(d.palette)
  {
    if LooksNegative(d) then d.(palette := Swapped(d.palette)) else d
  }

  /** A palette with exactly one white entry: a swap turns every pixel's whiteness over. */
  predicate OneWhiteEntry(p: seq<int>) {
    |p| == 2 && ((p[0] == White) != (p[1] == White))
  }

  lemma {:induction false} ColumnWhiteSwapped(d: ImageData, x: nat, h: nat)
    requires OneBit(d) && OneWhiteEntry(d.palette) && x < d.width && h <= d.height
    ensures OneBit(d.(palette := Swapped(d.palette)))
    ensures ColumnWhite(d.(palette := Swapped(d.palette)), x, h) == h - ColumnWhite(d, x, h)
  {
    var s := d.(palette := Swapped(d.palette));
    if h > 0 {
      ColumnWhiteSwapped(d, x, h - 1);
      assert IsWhite(s, x, h - 1) == !IsWhite(d, x, h - 1);
    }
  }

  /** After a swap, a sample's white count is its area minus the count before. */
  lemma {:induction false} RegionWhiteSwapped(d: ImageData, x0: nat, x1: nat, h: nat)
    requires OneBit(d) && OneWhiteEntry(d.palette) && x0 <= x1 <= d.width && h <= d.height
    ensures OneBit(d.(palette := Swapped(d.palette)))
    ensures RegionWhite(d.(palette := Swapped(d.palette)), x0, x1, h) == (x1 - x0) * h - RegionWhite(d, x0, x1, h)
    decreases x1 - x0
  {
    if x1 > x0 {
      RegionWhiteSwapped(d, x0, x1 - 1, h);
      ColumnWhiteSwapped(d, x1 - 1, h);
      assert (x1 - x0) * h == (x1 - 1 - x0) * h + h;
    }
  }

  /**
   * Correcting twice is the same as correcting once when the palette has one
   * white entry and the top-left sample of a negative-looking image was less
   * than half white: after the swap that sample is more than half white.
   */
  lemma SecondCorrectionKeeps(d: ImageData)
    requires OneBit(d) && OneWhiteEntry(d.palette) && LooksNegative(d)
    requires var w := Min(d.width, SampleSize); var h := Min(d.height, SampleSize);
      2 * RegionWhite(d, 0, w, h) < w * h
    ensures Corrected(Corrected(d)) == Corrected(d)
  {
    var w := Min(d.width, SampleSize);
    var h := Min(d.height, SampleSize);
    RegionWhiteSwapped(d, 0, w, h);
    assert TopLeftWhite(Corrected(d));
  }

  /** A two-pixel image, one black, one white: exactly half of an even sample. */
  function HalfWhiteImage(): (d: ImageData)
    ensures OneBit(d)
  {
    ImageData(Format1bppIndexed, 2, 1, [[0, 1]], [White, 0])
  }

  /**
   * The check is not idempotent: with exactly half of an even top-left sample
   * white and the image at most 50 pixels wide, every call swaps the palette,
   * so a second call undoes the first.
   */
  lemma CorrectionNotIdempotent()
    ensures Corrected(HalfWhiteImage()) != HalfWhiteImage()
    ensures Corrected(Corrected(HalfWhiteImage())) == HalfWhiteImage()
  {
    var d := HalfWhiteImage();
    assert RegionWhite(d, 0, 2, 1) == 1 by {
      assert ColumnWhite(d, 0, 1) == 1;
      assert ColumnWhite(d, 1, 1) == 0;
      assert RegionWhite(d, 0, 1, 1) == 1;
    }
    var c := Corrected(d);
    assert c.palette == [0, White];
    assert RegionWhite(c, 0, 2, 1) == 1 by {
      assert ColumnWhite(c, 0, 1) == 0;
      assert ColumnWhite(c, 1, 1) == 1;
      assert RegionWhite(c, 0, 1, 1) == 0;
    }
  }

  /** An image object whose palette the polarity check replaces. */
  class Bitmap {
    const format: PixelFormat
    const width: nat
    const height: nat
    const rows: seq<seq<nat>>
    var palette: seq<int>

    function Data(): ImageData
      reads this`palette
    {
      ImageData(format, width, height, rows, palette)
    }

    constructor (d: ImageData)
      requires WellFormed(d)
      ensures Data() == d
    {
      format, width, height, rows := d.format, d.width, d.height, d.rows;
      palette := d.palette;
    }

    /** The nested loops of the check: count the white pixels of a sample. */
    method SampleWhite(x0: nat, x1: nat, h: nat) returns (whiteCount: nat)
      requires OneBit(Data()) && x0 <= x1 <= width && h <= height
      ensures whiteCount == RegionWhite(Data(), x0, x1, h)
    {
      whiteCount := 0;
      var x := x0;
      while x < x1
        invariant x0 <= x <= x1
        invariant whiteCount == RegionWhite(Data(), x0, x, h)
      {
        var y := 0;
        while y < h
          invariant 0 <= y <= h
          invariant whiteCount == RegionWhite(Data(), x0, x, h) + ColumnWhite(Data(), x, y)
        {
          if palette[rows[y][x]] == White {
            whiteCount := whiteCount + 1;
          }
          y := y + 1;
        }
        x := x + 1;
      }
    }

    /** The top-left test of `checkNegative`: the sample at the origin is more than half white. */
    method TopLeftSample() returns (white: bool)
      requires OneBit(Data())
      ensures white == TopLeftWhite(Data())
    {
      var w := Min(width, SampleSize);
      var h := Min(height, SampleSize);
      var whiteCount := SampleWhite(0, w, h);
      white := whiteCount > w * h / 2;
    }

    /** The top-right test of `checkNegative`, taken only on images wider than the sample. */
    method TopRightSample() returns (white: bool)
      requires OneBit(Data())
      ensures white == TopRightWhite(Data())
    {
      white := false;
      if width > SampleSize {
        var h := Min(height, SampleSize);
        var whiteCount := SampleWhite(width - (SampleSize + 1), width, h);
        white := whiteCount > SampleSize * h / 2;
      }
    }

    /** `checkNegative`: swap the palette entries when neither top corner is mostly white. */
    method CheckNegative()
      requires OneBit(Data())
      modifies this`palette
      ensures Data() == Corrected(old(Data()))
    {
      var white := TopLeftSample();
      if white {
        return;
      }
      white := TopRightSample();
      if white {
        return;
      }
      var entries := palette;
      palette := [entries[1], entries[0]];
    }
  }
}
