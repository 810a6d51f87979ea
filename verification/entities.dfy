/**
 The two game entities of pong.go, `ball` and `paddle`, and their `draw`
 methods. Positions are `float32` in the source; `paddle.draw` truncates them
 with `int(...)` before use, so a position here is the pair of truncated
 Go `int`s.
 */
module Entities {
  import opened GoInt
  import opened Framebuffer

  /** A position after `int(x)`, `int(y)` truncation. */
  datatype Position = Position(x: Int64, y: Int64)

  /** `ball`: embedded colour and position plus the radius `r`. */
  datatype Ball = Ball(color: Color, pos: Position, r: Int64)

  /** `paddle`: embedded colour and position plus height `h` and width `w`. */
  datatype Paddle = Paddle(color: Color, pos: Position, h: Int64, w: Int64)

  /** `ball.draw` has an empty body: the buffer is left as it is. */
  method DrawBall(b: Ball, pixels: seq<byte>) returns (out: seq<byte>)
    ensures out == pixels
  {
    out := pixels;
  }

  /** Left column of the paddle's box, `int(paddle.x) - paddle.w/2`. */
  function Left(p: Paddle): Int64
  {
    Sub(p.pos.x, Half(p.w))
  }

  /** Top row of the paddle's box, `int(paddle.y) - paddle.h/2`. */
  function Top(p: Paddle): Int64
  {
    Sub(p.pos.y, Half(p.h))
  }

  /** Byte offset of cell (i, j) of a box whose top-left pixel is (left, top);
      the coordinates `left+i` and `top+j` are Go `int` additions. */
  function CellIndex(left: Int64, top: Int64, i: Int64, j: Int64): Int64
  {
    PixelIndex(Add(left, i), Add(top, j))
  }

  /** Byte `k` is a colour byte of some cell (i, j) of the `w × h` box whose
      offset passes the guard of `setPixel`; these are exactly the bytes
      drawing the box writes. */
  ghost predicate Covered(left: Int64, top: Int64, w: Int64, h: Int64, length: int, k: int)
  {
    exists i: int, j: int :: 0 <= i < w && 0 <= j < h && InSlot(CellIndex(left, top, i, j), length, k)
  }

  /** Covered by one of the cells before (i, j) in the row-major order in
      which the loops of `paddle.draw` visit them. */
  ghost predicate CoveredBefore(left: Int64, top: Int64, w: Int64, j: Int64, i: int, length: int, k: int)
  {
    exists ii: int, jj: int :: 0 <= ii < w && 0 <= jj && (jj < j || (jj == j && ii < i))
      && InSlot(CellIndex(left, top, ii, jj), length, k)
  }

  /** `out` is `pixels` with the box painted white: a colour byte of a cell
      with an in-range offset is 255, every other byte is unchanged. */
  ghost predicate BoxPainted(pixels: seq<byte>, out: seq<byte>, left: Int64, top: Int64, w: Int64, h: Int64)
  {
    && |out| == |pixels|
    && forall k :: 0 <= k < |out| ==>
         out[k] == if Covered(left, top, w, h, |pixels|, k) then 255 else pixels[k]
  }

  /** Visiting cell (i, j) adds exactly that cell's colour bytes. */
  lemma CoveredStep(left: Int64, top: Int64, w: Int64, j: Int64, i: int, length: int, k: int)
    requires 0 <= i < w && 0 <= j
    ensures CoveredBefore(left, top, w, j, i + 1, length, k)
        <==> CoveredBefore(left, top, w, j, i, length, k) || InSlot(CellIndex(left, top, i, j), length, k)
  {
    if CoveredBefore(left, top, w, j, i + 1, length, k) {
      var ii: int, jj: int :| 0 <= ii < w && 0 <= jj && (jj < j || (jj == j && ii < i + 1))
        && InSlot(CellIndex(left, top, ii, jj), length, k);
      if !(jj == j && ii == i) {
        assert CoveredBefore(left, top, w, j, i, length, k);
      }
    }
    if InSlot(CellIndex(left, top, i, j), length, k) {
      assert CoveredBefore(left, top, w, j, i + 1, length, k);
    }
  }

  /** Finishing row j is starting row j + 1. */
  lemma CoveredNextRow(left: Int64, top: Int64, w: Int64, j: Int64, i: int, length: int, k: int)
    requires 0 <= j < MaxInt && w <= i
    ensures CoveredBefore(left, top, w, j, i, length, k) <==> CoveredBefore(left, top, w, j + 1, 0, length, k)
  {
  }

  /** The loop invariant of `paddle.draw` after the cells before (i, j). */
  ghost predicate PaintedBefore(pixels: seq<byte>, out: seq<byte>, left: Int64, top: Int64, w: Int64, j: Int64, i: int)
  {
    && |out| == |pixels|
    && forall k :: 0 <= k < |out| ==>
         out[k] == if CoveredBefore(left, top, w, j, i, |pixels|, k) then 255 else pixels[k]
  }

  /** One `setPixel` call of the inner loop moves the invariant from cell
      (i, j) to cell (i + 1, j). */
  lemma PaintStep(pixels: seq<byte>, out: seq<byte>, left: Int64, top: Int64, w: Int64, j: Int64, i: int)
    requires 0 <= i < w && 0 <= j
    requires PaintedBefore(pixels, out, left, top, w, j, i)
    ensures PaintedBefore(pixels, SetPixel(Add(left, i), Add(top, j), White, out), left, top, w, j, i + 1)
  {
    var next := SetPixel(Add(left, i), Add(top, j), White, out);
    forall k | 0 <= k < |next|
      ensures next[k] == if CoveredBefore(left, top, w, j, i + 1, |pixels|, k) then 255 else pixels[k]
    {
      CoveredStep(left, top, w, j, i, |pixels|, k);
    }
  }

  /** Leaving row j of the outer loop of `paddle.draw` is entering row j + 1. */
  lemma RowStep(pixels: seq<byte>, out: seq<byte>, left: Int64, top: Int64, w: Int64, j: Int64, i: int)
    requires 0 <= j < MaxInt && w <= i
    requires PaintedBefore(pixels, out, left, top, w, j, i)
    ensures PaintedBefore(pixels, out, left, top, w, j + 1, 0)
  {
    forall k | 0 <= k < |out|
      ensures CoveredBefore(left, top, w, j, i, |pixels|, k) <==> CoveredBefore(left, top, w, j + 1, 0, |pixels|, k)
    {
      CoveredNextRow(left, top, w, j, i, |pixels|, k);
    }
  }

  /** Once the outer loop of `paddle.draw` exits, the painted bytes are those
      of the whole box. */
  lemma AllRowsPainted(pixels: seq<byte>, out: seq<byte>, left: Int64, top: Int64, w: Int64, h: Int64, j: Int64)
    requires 0 <= j && (j == h || (h < 0 && j == 0))
    requires PaintedBefore(pixels, out, left, top, w, j, 0)
    ensures BoxPainted(pixels, out, left, top, w, h)
  {
    forall k | 0 <= k < |out|
      ensures CoveredBefore(left, top, w, j, 0, |pixels|, k) <==> Covered(left, top, w, h, |pixels|, k)
    {
      if CoveredBefore(left, top, w, j, 0, |pixels|, k) {
        var ii: int, jj: int :| 0 <= ii < w && 0 <= jj && (jj < j || (jj == j && ii < 0))
          && InSlot(CellIndex(left, top, ii, jj), |pixels|, k);
      }
    }
  }

  /** `paddle.draw`: fills the `w × h` box whose top-left pixel is
      (`int(x) - w/2`, `int(y) - h/2`) with `setPixel`, always in white; the
      paddle's own colour field plays no part. */
  method DrawPaddle(p: Paddle, pixels: seq<byte>) returns (out: seq<byte>)
    ensures BoxPainted(pixels, out, Left(p), Top(p), p.w, p.h)
  {
    var left, top := Left(p), Top(p);
    out := pixels;
    var j: Int64 := 0;
    while j < p.h
      invariant 0 <= j && (0 <= p.h ==> j <= p.h) && (p.h < 0 ==> j == 0)
      invariant PaintedBefore(pixels, out, left, top, p.w, j, 0)
    {
      var i: Int64 := 0;
      while i < p.w
        invariant 0 <= i && (0 <= p.w ==> i <= p.w)
        invariant PaintedBefore(pixels, out, left, top, p.w, j, i)
      {
        PaintStep(pixels, out, left, top, p.w, j, i);
        out := SetPixel(Add(left, i), Add(top, j), White, out);
        i := i + 1;
      }
      RowStep(pixels, out, left, top, p.w, j, i);
      j := j + 1;
    }
    AllRowsPainted(pixels, out, left, top, p.w, p.h, j);
  }

  /** Every cell (i, j) of the box whose offset passes the guard of
      `setPixel` shows RGB (255, 255, 255). */
  lemma CellWhite(pixels: seq<byte>, out: seq<byte>, left: Int64, top: Int64, w: Int64, h: Int64, i: int, j: int)
    requires BoxPainted(pixels, out, left, top, w, h)
    requires 0 <= i < w && 0 <= j < h && Writable(CellIndex(left, top, i, j), |pixels|)
    ensures out[CellIndex(left, top, i, j)] == 255
    ensures out[CellIndex(left, top, i, j) + 1] == 255
    ensures out[CellIndex(left, top, i, j) + 2] == 255
  {
    var c := CellIndex(left, top, i, j);
    assert Covered(left, top, w, h, |pixels|, c);
    assert Covered(left, top, w, h, |pixels|, c + 1);
    assert Covered(left, top, w, h, |pixels|, c + 2);
  }

  /** A byte the box covers is a red, green or blue byte, and on a buffer of
      whole pixels it lies before the last pixel. */
  lemma CoveredColorByte(left: Int64, top: Int64, w: Int64, h: Int64, length: int, k: int)
    requires Covered(left, top, w, h, length, k)
    ensures k % 4 != 3
    ensures length % 4 == 0 ==> k < length - 4
  {
    var i: int, j: int :| 0 <= i < w && 0 <= j < h && InSlot(CellIndex(left, top, i, j), length, k);
    var c: int := CellIndex(left, top, i, j);
    ColorByteOffset(c, length, k);
  }

  /** Arithmetic behind `CoveredColorByte`, for any offset that is a
      multiple of four. */
  lemma ColorByteOffset(c: int, length: int, k: int)
    requires c % 4 == 0 && InSlot(c, length, k)
    ensures k % 4 != 3
    ensures length % 4 == 0 ==> k < length - 4
  {
  }

  /** Painting a box never touches the fourth byte of any pixel: every
      offset `setPixel` computes is a multiple of four. */
  lemma FourthBytesKept(pixels: seq<byte>, out: seq<byte>, left: Int64, top: Int64, w: Int64, h: Int64)
    requires BoxPainted(pixels, out, left, top, w, h)
    ensures forall k :: 0 <= k < |out| && k % 4 == 3 ==> out[k] == pixels[k]
  {
    forall k | 0 <= k < |out| && k % 4 == 3
      ensures !Covered(left, top, w, h, |pixels|, k)
    {
      if Covered(left, top, w, h, |pixels|, k) {
        CoveredColorByte(left, top, w, h, |pixels|, k);
      }
    }
  }

  /** On a buffer of whole pixels, painting a box leaves the last pixel as
      it was, however the box overlaps the buffer's end. */
  lemma LastPixelKept(pixels: seq<byte>, out: seq<byte>, left: Int64, top: Int64, w: Int64, h: Int64)
    requires BoxPainted(pixels, out, left, top, w, h)
    requires |pixels| % 4 == 0 && 4 <= |pixels|
    ensures out[|pixels| - 4..] == pixels[|pixels| - 4..]
  {
    forall k | |pixels| - 4 <= k < |pixels|
      ensures out[k] == pixels[k]
    {
      if Covered(left, top, w, h, |pixels|, k) {
        CoveredColorByte(left, top, w, h, |pixels|, k);
      }
    }
  }

  /** The image a paddle draws depends on its position and size only: two
      paddles that differ only in their colour field draw the same pixels. */
  lemma PaddleColorIgnored(p: Paddle, c: Color, pixels: seq<byte>, a: seq<byte>, b: seq<byte>)
    requires BoxPainted(pixels, a, Left(p), Top(p), p.w, p.h)
    requires BoxPainted(pixels, b, Left(p.(color := c)), Top(p.(color := c)), p.w, p.h)
    ensures a == b
  {
    assert forall k :: 0 <= k < |a| ==> a[k] == b[k];
  }
}
