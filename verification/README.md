# Pong software rasterizer in Dafny

This project models the drawing core of `pong.go`, a first Pong prototype
built on SDL2. All of the program's own logic is a small software rasterizer
over one flat RGBA byte buffer. The buffer is row-major with four bytes per
pixel. Its size is `winWidth*winHeight*4`, with `winWidth = 1920` and
`winHeight = 1080`. The model covers:

- `setPixel`. It computes the linear offset `(y*winWidth + x) * 4` and stores
  the red, green and blue bytes only when `0 <= index < len(pixels)-4`.
  It never checks `x` or `y` against the window.
- `paddle.draw`. It fills a `w × h` box whose top-left pixel is
  `(int(x) - w/2, int(y) - h/2)`, always in white.
- `ball.draw`, whose body is empty.
- The gradient loop of `main`. It paints pixel `(x, y)` of a freshly zeroed
  buffer with `(x % 255, y % 255, 0)`.

Modules:

- `GoInt` (`go_int.dfy`) models Go's 64-bit `int`. `+`, `-` and `*` wrap modulo
  2^64, and `/ 2` truncates toward zero.
- `Framebuffer` (`framebuffer.dfy`) holds the window constants, `byte`,
  `Color`, the offset computation and `SetPixel`.
- `Entities` (`entities.dfy`) holds `Position`, `Ball`, `Paddle`, `DrawBall`
  and `DrawPaddle`.
- `Gradient` (`gradient.dfy`) holds the double loop of `main`.

In the source, every draw mutates the byte slice in place. Here a draw takes a
buffer as a `seq<byte>` and returns the new buffer. Every contract therefore
says exactly which bytes change, to what value, and that nothing else changes.

Some consequences of the code are kept as they are, and proved:

- The strict `<` in the guard means the last pixel of a buffer of whole
  pixels can never be written. This is why the gradient frame ends with one
  black pixel. For a buffer whose length is not a multiple of four, the
  statement fails: with length 9, offset 4 passes the guard and writes byte 5.
  `LastPixelNeverWritten` therefore requires a whole-pixel buffer, and
  `main` allocates one.
- A column past the right edge wraps onto the next row.
- The index arithmetic is done on 64-bit `int`. A huge `y` can therefore
  overflow back into the buffer.
- The paddle's `color` field is never read.

A later 960×540 version of this game adds a filled-circle ball, ball
physics, an AI paddle, keyboard input and a buffer clear. That version is not
part of this model. This model follows `pong.go` as written: a 1920×1080
window, an empty `ball.draw`, no circle, no clear and no physics.

## Model

| member | source | states |
|---|---|---|
| `GoInt.Wrap` | pong.go:53 | The result is a Go `int` (between -2^63 and 2^63-1) congruent to the exact value modulo 2^64, so it is the unique two's-complement reduction. A value already in range is returned unchanged. |
| `GoInt.Add` | pong.go:47 | Go's `startX+x` and `startY+y` give the Go `int` congruent to the exact sum modulo 2^64. The sum is exact when it does not overflow. |
| `GoInt.Sub` | pong.go:42-43 | Go's `int(paddle.x) - paddle.w/2` gives the Go `int` congruent to the exact difference modulo 2^64. The difference is exact when it does not overflow. |
| `GoInt.Mul` | pong.go:53 | Go's `y*winWidth` and `(...) * 4` give the Go `int` congruent to the exact product modulo 2^64. The product is exact when it does not overflow. |
| `GoInt.Half` | pong.go:42-43 | Go's `w/2` truncates toward zero, so the remainder has the sign of the dividend. For a negative `w` this differs from Dafny's floor division. |
| `Framebuffer.PixelIndex` | pong.go:53 | The offset Go computes for (x, y) is always a multiple of four. For an on-screen pixel it is exactly `(y*1920 + x)*4`, with no wrap. |
| `Framebuffer.IndexCollapses` | pong.go:53 | Go's three wrapping `int` operations in `(y*winWidth + x) * 4` equal a single 64-bit wrap of the exact value. That value is a multiple of four. |
| `Framebuffer.SetPixel` | pong.go:52-60 | The buffer length is preserved. If the offset fails `0 <= index < len-4`, the buffer is unchanged. Otherwise bytes `index`, `index+1` and `index+2` get the colour's r, g and b, and every other byte keeps its value. |
| `Framebuffer.SetPixelWritesColor` | pong.go:55-59 | At an offset that passes the guard, the pixel reads back as (c.r, c.g, c.b). Its fourth byte `index+3` is left as it was. |
| `Framebuffer.LastPixelNeverWritten` | pong.go:55 | On a buffer whose length is a multiple of four, no arguments whatever change the last four bytes, because the bound is strict. |
| `Framebuffer.RowWrap` | pong.go:53-55 | There are no per-axis bounds: for every pair of Go `int`s, `setPixel(x + winWidth, y, c)` has exactly the effect of `setPixel(x, y + 1, c)`. This holds even when Go's `x + winWidth` or `y + 1` wraps around. |
| `Framebuffer.OverflowReachesOrigin` | pong.go:53-58 | The offset arithmetic wraps at 64 bits. (1024, 2401919801264264) gives offset 2^64, which wraps to 0, so that call writes the colour into pixel (0, 0). |
| `Framebuffer.SetPixelIdempotent` | pong.go:52-60 | Writing the same pixel with the same colour twice leaves the same buffer as writing it once. This is why overlapping paddle cells are harmless. |
| `Entities.DrawBall` | pong.go:29-31 | `ball.draw` returns the buffer unchanged. |
| `Entities.DrawPaddle` | pong.go:41-50 | The box starts at (`int(x) - w/2`, `int(y) - h/2`) and is `w × h`. The result equals the input, except that each colour byte of each box cell whose offset passes the guard is 255. The contract depends only on position, `w` and `h`. |
| `Entities.CellWhite` | pong.go:45-48 | After the paddle is drawn, each cell (i, j) with `0 <= i < w`, `0 <= j < h` and an offset passing the guard has RGB (255, 255, 255). |
| `Entities.CoveredColorByte` | pong.go:47-58 | A byte the paddle writes is a red, green or blue byte. On a whole-pixel buffer it lies before the last pixel. |
| `Entities.FourthBytesKept` | pong.go:45-59 | Drawing a paddle never changes the fourth byte of any pixel. |
| `Entities.LastPixelKept` | pong.go:45-55 | On a whole-pixel buffer, drawing a paddle leaves the last pixel as it was, wherever the box lies. |
| `Entities.PaddleColorIgnored` | pong.go:47 | Two paddles that differ only in their `color` field draw identical buffers. |
| `Gradient.GradientFill` | pong.go:108-112 | The double loop works on a buffer of any length. A colour byte of a window pixel whose offset passes the guard gets that pixel's gradient value. Every other byte is unchanged. |
| `Gradient.MainFrame` | pong.go:106-112 | On the zeroed 1920×1080×4 buffer, every pixel (x, y) except the last has RGB `(x%255, y%255, 0)`. Every fourth byte stays 0, and the whole last pixel stays 0. |

## Left out

- The SDL side of `main` is not modelled: initialisation, window, renderer and
  texture creation, the `tex.Update`/`Copy`/`Present` calls, teardown, and the
  event loop that waits for a quit event. These are calls into a graphics
  library whose code is not part of this model.
- The `float32` positions and their `int(...)` truncation are not modelled,
  because they are floating point. A `Position` holds the already-truncated
  integers.
- The ball's `xv` and `yv` velocities are dropped, because they are `float32`
  and the prototype never reads them. The `Ball` datatype keeps its colour,
  position and radius, which `ball.draw` also ignores.
- The later version's behaviour is left out because `pong.go` has no code
  for it: circle filling, ball movement and bouncing, paddle input, AI
  tracking, buffer clearing and frame timing.
- Go's `int` is modelled as 64 bits wide. On 32-bit targets such as 386 or
  arm it wraps at 2^32 instead, and those targets are not modelled. The
  concrete overflow in `OverflowReachesOrigin` and the single 64-bit wrap in
  `IndexCollapses` are specific to 64-bit targets.
- In-place mutation of the Go slice is modelled as a function from the old
  buffer to the new one. Aliasing is not modelled, because every draw in the
  program receives the one buffer `main` owns.
