/**
 The RGBA pixel buffer of pong.go and its one write primitive, `setPixel`.

 The buffer is a flat byte slice, row-major, four bytes per pixel
 (red, green, blue, then a fourth byte the code never writes). In the source
 it is mutated in place; here a write takes a buffer and returns the new one.
 */
module Framebuffer {
  import opened GoInt

  const WinWidth: int := 1920
  const WinHeight: int := 1080

  /** Length of the buffer `main` allocates. */
  const BufferLength: int := WinWidth * WinHeight * 4

  type byte = b: int | 0 <= b < 256

  datatype Color = Color(r: byte, g: byte, b: byte)

  /** The bytes `color{255, 255, 255}` writes. */
  const White: Color := Color(255, 255, 255)

  /** Byte offset of pixel (x, y): Go evaluates `(y*winWidth + x) * 4` with
      three wrapping `int` operations, which equals one wrap of the exact
      value; on the screen there is no wrap at all. */
  function PixelIndex(x: Int64, y: Int64): (index: Int64)
    ensures index % 4 == 0
    ensures 0 <= x < WinWidth && 0 <= y < WinHeight ==> index == (y * WinWidth + x) * 4
  {
    IndexCollapses(x, y);
    Mul(Add(Mul(y, WinWidth), x), 4)
  }

  lemma IndexCollapses(x: Int64, y: Int64)
    ensures Mul(Add(Mul(y, WinWidth), x), 4) == Wrap((y * WinWidth + x) * 4)
    ensures Wrap((y * WinWidth + x) * 4) % 4 == 0
  {
    WrapAddInner(y * WinWidth, x);
    WrapTimesFourInner(y * WinWidth + x);
    WrapTimesFour(y * WinWidth + x);
  }

  /** The guard of `setPixel`: the strict upper bound leaves the last four
      bytes of the buffer out of reach. */
  predicate Writable(index: int, length: int)
  {
    index < length - 4 && index >= 0
  }

  /** Byte `k` is one of the three colour bytes a write at `index` stores. */
  predicate InSlot(index: int, length: int, k: int)
  {
    Writable(index, length) && index <= k < index + 3
  }

  /** Byte `ch` (0 red, 1 green, 2 blue) of a colour. */
  function Channel(c: Color, ch: int): byte
    requires 0 <= ch < 3
  {
    if ch == 0 then c.r else if ch == 1 then c.g else c.b
  }

  /** `setPixel(x, y, c, pixels)`. Nothing checks `x` or `y` against the
      window: only the linear index is tested. */
  function SetPixel(x: Int64, y: Int64, c: Color, pixels: seq<byte>): (r: seq<byte>)
    ensures |r| == |pixels|
    ensures !Writable(PixelIndex(x, y), |pixels|) ==> r == pixels
    ensures forall k :: 0 <= k < |r| ==>
      r[k] == if InSlot(PixelIndex(x, y), |pixels|, k) then Channel(c, k - PixelIndex(x, y)) else pixels[k]
  {
    var index := PixelIndex(x, y);
    if Writable(index, |pixels|) then
      pixels[index := c.r][index + 1 := c.g][index + 2 := c.b]
    else
      pixels
  }

  /** A write at an in-range index stores exactly the colour's three bytes
      and leaves the fourth byte of that pixel alone. */
  lemma SetPixelWritesColor(x: Int64, y: Int64, c: Color, pixels: seq<byte>)
    requires Writable(PixelIndex(x, y), |pixels|)
    ensures var i := PixelIndex(x, y);
      && SetPixel(x, y, c, pixels)[i] == c.r
      && SetPixel(x, y, c, pixels)[i + 1] == c.g
      && SetPixel(x, y, c, pixels)[i + 2] == c.b
      && SetPixel(x, y, c, pixels)[i + 3] == pixels[i + 3]
  {
    var i := PixelIndex(x, y);
    var r := SetPixel(x, y, c, pixels);
    assert InSlot(i, |pixels|, i) && InSlot(i, |pixels|, i + 1) && InSlot(i, |pixels|, i + 2);
    assert r[i + 3] == pixels[i + 3] by { assert !InSlot(i, |pixels|, i + 3); }
  }

  /** On a buffer made of whole pixels, the last pixel is never written,
      whatever the arguments. */
  lemma {:induction false} LastPixelNeverWritten(x: Int64, y: Int64, c: Color, pixels: seq<byte>)
    requires |pixels| % 4 == 0 && 4 <= |pixels|
    ensures SetPixel(x, y, c, pixels)[|pixels| - 4..] == pixels[|pixels| - 4..]
  {
    var i := PixelIndex(x, y);
    var r := SetPixel(x, y, c, pixels);
    forall k | |pixels| - 4 <= k < |pixels|
      ensures r[k] == pixels[k]
    {
      if Writable(i, |pixels|) {
        assert i <= |pixels| - 8;
      }
      assert !InSlot(i, |pixels|, k);
    }
  }

  /** No per-axis check: a column one window-width past the right edge is
      the same pixel as the same column on the next row, also when Go's
      `x + winWidth` or `y + 1` itself wraps around. */
  lemma RowWrap(x: Int64, y: Int64, c: Color, pixels: seq<byte>)
    ensures SetPixel(Add(x, WinWidth), y, c, pixels) == SetPixel(x, Add(y, 1), c, pixels)
  {
    var x', y' := Add(x, WinWidth), Add(y, 1);
    var exact := ((y + 1) * WinWidth + x) * 4;
    IndexCollapses(x', y);
    IndexCollapses(x, y');
    CongruentScaled(y * WinWidth + x + WinWidth, y * WinWidth + x', 4);
    WrapCongruent(exact, (y * WinWidth + x') * 4);
    CongruentScaled(y + 1, y', WinWidth);
    CongruentScaled((y + 1) * WinWidth + x, y' * WinWidth + x, 4);
    WrapCongruent(exact, (y' * WinWidth + x) * 4);
  }

  /** The index arithmetic wraps at 64 bits: a row far below the window,
      `y = 2401919801264264` with `x = 1024`, makes `(y*winWidth + x) * 4`
      exactly 2^64, which Go reduces to 0, so the guard lets the write land
      on pixel (0, 0). */
  lemma OverflowReachesOrigin(c: Color, pixels: seq<byte>)
    requires 4 < |pixels|
    ensures SetPixel(1024, 2401919801264264, c, pixels)[0] == c.r
    ensures SetPixel(1024, 2401919801264264, c, pixels)[1] == c.g
    ensures SetPixel(1024, 2401919801264264, c, pixels)[2] == c.b
  {
    var x: Int64, y: Int64 := 1024, 2401919801264264;
    assert (y * WinWidth + x) * 4 == Modulus;
    IndexCollapses(x, y);
    assert PixelIndex(x, y) == 0;
    assert InSlot(0, |pixels|, 0) && InSlot(0, |pixels|, 1) && InSlot(0, |pixels|, 2);
  }

  /** Writing the same pixel twice has the effect of writing it once. */
  lemma SetPixelIdempotent(x: Int64, y: Int64, c: Color, pixels: seq<byte>)
    ensures SetPixel(x, y, c, SetPixel(x, y, c, pixels)) == SetPixel(x, y, c, pixels)
  {
    var once := SetPixel(x, y, c, pixels);
    var twice := SetPixel(x, y, c, once);
    assert forall k :: 0 <= k < |twice| ==> twice[k] == once[k];
  }
}
