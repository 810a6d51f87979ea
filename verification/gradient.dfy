/**
 The frame `main` in pong.go draws before presenting: a freshly allocated,
 zeroed buffer of `winWidth*winHeight*4` bytes, filled row by row with the
 colour `(x % 255, y % 255, 0)` at every pixel (x, y) through `setPixel`.
 */
module Gradient {
  import opened GoInt
  import opened Framebuffer

  const PixelCount: int := WinWidth * WinHeight

  /** The colour `main` asks for at pixel (x, y). */
  function GradientColor(x: int, y: int): Color
    requires 0 <= x && 0 <= y
  {
    Color(x % 255, y % 255, 0)
  }

  /** Byte `k` of the buffer once the first `painted` pixels, in row-major
      order, have been passed to `setPixel`: a colour byte of a painted pixel
      whose offset passes the guard holds the gradient, every other byte
      keeps its value in `pixels`. */
  function GradientByte(pixels: seq<byte>, painted: int, k: int): byte
    requires 0 <= k < |pixels|
  {
    var p := k / 4;
    if p < painted && InSlot(4 * p, |pixels|, k) then
      Channel(GradientColor(p % WinWidth, p / WinWidth), k % 4)
    else
      pixels[k]
  }

  /** Row-major pixel number and byte offset of an on-screen pixel agree. */
  lemma PixelNumber(x: int, y: int, ch: int)
    requires 0 <= x < WinWidth && 0 <= y < WinHeight && 0 <= ch < 4
    ensures var k := (y * WinWidth + x) * 4 + ch;
      && k / 4 == y * WinWidth + x
      && k % 4 == ch
      && (y * WinWidth + x) % WinWidth == x
      && (y * WinWidth + x) / WinWidth == y
  {
  }

  /** Painting pixel (x, y), the next in row-major order, extends the
      painted prefix by one. */
  lemma {:induction false} GradientStep(pixels: seq<byte>, cur: seq<byte>, x: int, y: int)
    requires 0 <= x < WinWidth && 0 <= y < WinHeight
    requires |cur| == |pixels|
    requires forall k :: 0 <= k < |cur| ==> cur[k] == GradientByte(pixels, y * WinWidth + x, k)
    ensures var next := SetPixel(x, y, GradientColor(x, y), cur);
      forall k :: 0 <= k < |next| ==> next[k] == GradientByte(pixels, y * WinWidth + x + 1, k)
  {
    var p := y * WinWidth + x;
    var next := SetPixel(x, y, GradientColor(x, y), cur);
    assert PixelIndex(x, y) == 4 * p;
    forall k | 0 <= k < |next|
      ensures next[k] == GradientByte(pixels, p + 1, k)
    {
      if k / 4 == p {
        PixelNumber(x, y, k % 4);
        assert k == 4 * p + k % 4;
      } else {
        assert !InSlot(4 * p, |pixels|, k);
      }
    }
  }

  /** The double loop of `main`, on a buffer of any length: every pixel of
      the window whose offset passes the guard of `setPixel` gets its
      gradient colour bytes; nothing else changes. */
  method GradientFill(pixels: seq<byte>) returns (out: seq<byte>)
    ensures |out| == |pixels|
    ensures forall k :: 0 <= k < |out| ==> out[k] == GradientByte(pixels, PixelCount, k)
  {
    out := pixels;
    var y := 0;
    while y < WinHeight
      invariant 0 <= y <= WinHeight
      invariant |out| == |pixels|
      invariant forall k :: 0 <= k < |out| ==> out[k] == GradientByte(pixels, y * WinWidth, k)
    {
      var x := 0;
      while x < WinWidth
        invariant 0 <= x <= WinWidth
        invariant |out| == |pixels|
        invariant forall k :: 0 <= k < |out| ==> out[k] == GradientByte(pixels, y * WinWidth + x, k)
      {
        GradientStep(pixels, out, x, y);
        out := SetPixel(x, y, GradientColor(x, y), out);
        x := x + 1;
      }
      y := y + 1;
    }
  }

  /** pong.go lines 106-112 of `main`: allocate a zeroed buffer, then fill it. Every
      pixel but the last shows its gradient colour, no fourth byte is ever
      written, and the last pixel stays black. */
  method MainFrame() returns (frame: seq<byte>)
    ensures |frame| == BufferLength
    ensures forall x: int, y: int ::
      && 0 <= x < WinWidth && 0 <= y < WinHeight
      && !(x == WinWidth - 1 && y == WinHeight - 1)
      ==>
      && frame[PixelIndex(x, y)] == x % 255
      && frame[PixelIndex(x, y) + 1] == y % 255
      && frame[PixelIndex(x, y) + 2] == 0
    ensures forall x: int, y: int :: 0 <= x < WinWidth && 0 <= y < WinHeight ==>
      frame[PixelIndex(x, y) + 3] == 0
    ensures forall k :: BufferLength - 4 <= k < BufferLength ==> frame[k] == 0
  {
    var zeroed := seq(BufferLength, _ => 0);
    frame := GradientFill(zeroed);
    forall x: int, y: int | 0 <= x < WinWidth && 0 <= y < WinHeight
      ensures !(x == WinWidth - 1 && y == WinHeight - 1) ==>
        && frame[PixelIndex(x, y)] == x % 255
        && frame[PixelIndex(x, y) + 1] == y % 255
        && frame[PixelIndex(x, y) + 2] == 0
      ensures frame[PixelIndex(x, y) + 3] == 0
    {
      PixelNumber(x, y, 0);
      PixelNumber(x, y, 1);
      PixelNumber(x, y, 2);
      PixelNumber(x, y, 3);
    }
  }
}
