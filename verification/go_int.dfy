/**
 Go's `int` on a 64-bit platform: a two's-complement integer whose `+`, `-`
 and `*` wrap around modulo 2^64, and whose `/` truncates toward zero.
 Dafny's `int` is unbounded, so every Go operation the rasterizer performs on
 `int` values goes through one of the functions below.
 */
module GoInt {

  const Modulus: int := 0x1_0000_0000_0000_0000
  const MinInt: int := -0x8000_0000_0000_0000
  const MaxInt: int := 0x7fff_ffff_ffff_ffff

  /** A value a Go `int` variable can hold. */
  type Int64 = i: int | MinInt <= i <= MaxInt

  /** The two's-complement reduction of an exact result to 64 bits. */
  function Wrap(v: int): (r: Int64)
    ensures (v - r) % Modulus == 0
    ensures MinInt <= v <= MaxInt ==> r == v
  {
    (v - MinInt) % Modulus + MinInt
  }

  /** Go `a + b` on `int`. */
  function Add(a: Int64, b: Int64): (r: Int64)
    ensures (a + b - r) % Modulus == 0
    ensures MinInt <= a + b <= MaxInt ==> r == a + b
  {
    Wrap(a + b)
  }

  /** Go `a - b` on `int`. */
  function Sub(a: Int64, b: Int64): (r: Int64)
    ensures (a - b - r) % Modulus == 0
    ensures MinInt <= a - b <= MaxInt ==> r == a - b
  {
    Wrap(a - b)
  }

  /** Go `a * b` on `int`. */
  function Mul(a: Int64, b: Int64): (r: Int64)
    ensures (a * b - r) % Modulus == 0
    ensures MinInt <= a * b <= MaxInt ==> r == a * b
  {
    Wrap(a * b)
  }

  /** Go `a / 2` on `int`: the quotient is truncated toward zero, so the
      remainder `a - 2 * r` takes the sign of `a`. */
  function Half(a: Int64): (r: Int64)
    ensures 0 <= a ==> 0 <= a - 2 * r <= 1
    ensures a < 0 ==> -1 <= a - 2 * r <= 0
  {
    var m: int := a;
    if 0 <= m then m / 2 else -((-m) / 2)
  }

  /** Two exact values that agree modulo 2^64 wrap to the same Go `int`. */
  lemma WrapCongruent(u: int, v: int)
    requires (u - v) % Modulus == 0
    ensures Wrap(u) == Wrap(v)
  {
    var q := (u - v) / Modulus;
    assert u - MinInt == (v - MinInt) + Modulus * q;
  }

  /** Agreement modulo 2^64 survives multiplication by any factor. */
  lemma CongruentScaled(u: int, v: int, m: int)
    requires (u - v) % Modulus == 0
    ensures (u * m - v * m) % Modulus == 0
  {
    var q := (u - v) / Modulus;
    assert u - v == Modulus * q;
    assert u * m - v * m == (u - v) * m;
    assert u * m - v * m == Modulus * (q * m);
  }

  /** Wrapping an intermediate result does not change the final one. */
  lemma WrapAddInner(a: int, b: int)
    ensures Wrap(Wrap(a) + b) == Wrap(a + b)
  {
    var q := (a - Wrap(a)) / Modulus;
    assert (a + b) - (Wrap(a) + b) == Modulus * q;
    WrapCongruent(Wrap(a) + b, a + b);
  }

  /** Wrapping an intermediate result does not change the final one. */
  lemma WrapTimesFourInner(a: int)
    ensures Wrap(Wrap(a) * 4) == Wrap(a * 4)
  {
    var q := (a - Wrap(a)) / Modulus;
    assert a * 4 - Wrap(a) * 4 == Modulus * (q * 4);
    WrapCongruent(Wrap(a) * 4, a * 4);
  }

  /** A wrapped multiple of four is still a multiple of four, because 2^64 is. */
  lemma WrapTimesFour(v: int)
    ensures Wrap(v * 4) % 4 == 0
  {
    var q := (v * 4 - MinInt) / Modulus;
    assert Wrap(v * 4) == v * 4 - MinInt - Modulus * q + MinInt;
  }
}
