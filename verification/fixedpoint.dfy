/** Two's-complement integer formats of the filter kernel, modelled over
    unbounded `int`, with the shift, mask and wrap-around operations the C
    code relies on written out explicitly. */
module FixedPoint {

  /** Powers of two used as shift scales (a shift by k is a scale of 2^k). */
  const TWO1: int := 2
  const TWO5: int := 0x20
  const TWO15: int := 0x8000
  const TWO16: int := 0x1_0000
  const TWO21: int := 0x20_0000
  const TWO30: int := 0x4000_0000
  const TWO31: int := 0x8000_0000
  const TWO32: int := 0x1_0000_0000

  /** A C `I16`: 16-bit two's-complement signed integer. */
  type I16 = x: int | -0x8000 <= x < 0x8000

  /** A C `I32`: 32-bit two's-complement signed integer. */
  type I32 = x: int | -0x8000_0000 <= x < 0x8000_0000

  /** An exact result that a 32-bit register holds without wrapping: the
      range of `I32`, as a test on an unbounded `int`. */
  predicate InI32(x: int) {
    -TWO31 <= x < TWO31
  }

  /** An exact result that a 16-bit register holds without wrapping. */
  predicate InI16(x: int) {
    -TWO15 <= x < TWO15
  }

  /** The "Wrap" overflow mode at 32 bits: the unique I32 congruent to `x`
      modulo 2^32. */
  function Wrap32(x: int): (r: I32)
    ensures (x - r) % TWO32 == 0
    ensures InI32(x) ==> r == x
  {
    (x + TWO31) % TWO32 - TWO31
  }

  /** The "Wrap" overflow mode at 16 bits: the C cast `(I16)` of an int. */
  function Wrap16(x: int): (r: I16)
    ensures (x - r) % TWO16 == 0
    ensures InI16(x) ==> r == x
  {
    (x + TWO15) % TWO16 - TWO15
  }

  /** Arithmetic right shift by log2(scale) bits: rounds toward minus infinity. */
  function Asr(x: int, scale: int): (r: int)
    requires scale > 0
    ensures scale * r <= x < scale * (r + 1)
  {
    x / scale
  }

  /** `x & 0xffff`: the low 16 bits of the two's-complement pattern of `x`,
      read as an unsigned number. Together with `Asr(x, TWO16)` it splits `x`. */
  function Low16(x: int): (r: int)
    ensures 0 <= r < TWO16
    ensures x == Asr(x, TWO16) * TWO16 + r
  {
    x % TWO16
  }

  /** 32-bit C arithmetic: the exact result, wrapped. */
  function Add32(a: int, b: int): I32 {
    Wrap32(a + b)
  }

  function Sub32(a: int, b: int): I32 {
    Wrap32(a - b)
  }

  function Mul32(a: int, b: int): I32 {
    Wrap32(a * b)
  }

  /** Left shift by log2(scale) bits in a 32-bit register. */
  function Shl32(x: int, scale: int): I32 {
    Wrap32(x * scale)
  }

  /** Two integers congruent modulo 2^32 wrap to the same I32. */
  lemma WrapCongruent(x: int, y: int)
    requires (x - y) % TWO32 == 0
    ensures Wrap32(x) == Wrap32(y)
  {
    var k := (x - y) / TWO32;
    assert x == y + k * TWO32;
    var rx, ry := Wrap32(x), Wrap32(y);
    var kx, ky := (x - rx) / TWO32, (y - ry) / TWO32;
    assert rx - ry == (k + ky - kx) * TWO32;
    assert -TWO32 < rx - ry < TWO32;
  }

  /** Wrapping an operand early does not change a wrapped sum. */
  lemma WrapAddInner(a: int, b: int)
    ensures Wrap32(Wrap32(a) + b) == Wrap32(a + b)
  {
    WrapCongruent(Wrap32(a) + b, a + b);
  }

  /** Wrapping the subtrahend early does not change a wrapped difference. */
  lemma WrapSubInner(a: int, b: int)
    ensures Wrap32(a - Wrap32(b)) == Wrap32(a - b)
  {
    var k := (b - Wrap32(b)) / TWO32;
    assert (a - Wrap32(b)) - (a - b) == k * TWO32;
    WrapCongruent(a - Wrap32(b), a - b);
  }

  /** Floor division by a product is repeated floor division: `(x >> m) >> n`
      equals `x >> (m + n)`. */
  lemma AsrAsr(x: int, m: int, n: int)
    requires m > 0 && n > 0
    ensures Asr(Asr(x, m), n) == Asr(x, m * n)
  {
    var q := Asr(x, m);
    var r := Asr(q, n);
    assert m * q <= x < m * (q + 1);
    assert n * r <= q < n * (r + 1);
    assert (m * n) * r <= m * q by {
      MulLeMono(m, n * r, q);
    }
    assert m * (q + 1) <= (m * n) * (r + 1) by {
      MulLeMono(m, q + 1, n * (r + 1));
    }
    AsrUnique(x, m * n, r);
  }

  /** Adding a whole multiple of the scale before shifting adds the multiple
      after shifting. */
  lemma AsrAddMultiple(x: int, k: int, scale: int)
    requires scale > 0
    ensures Asr(k * scale + x, scale) == k + Asr(x, scale)
  {
    var q := Asr(x, scale);
    assert scale * (k + q) <= k * scale + x < scale * (k + q + 1);
    AsrUnique(k * scale + x, scale, k + q);
  }

  /** The floor quotient is the unique `q` with `scale*q <= x < scale*(q+1)`. */
  lemma AsrUnique(x: int, scale: int, q: int)
    requires scale > 0
    requires scale * q <= x < scale * (q + 1)
    ensures Asr(x, scale) == q
  {
    var r := Asr(x, scale);
    if r < q {
      MulLeMono(scale, r + 1, q);
    } else if r > q {
      MulLeMono(scale, q + 1, r);
    }
  }

  lemma MulLeMono(a: int, b: int, c: int)
    requires a >= 0 && b <= c
    ensures a * b <= a * c
  {
    assert a * c - a * b == a * (c - b);
  }
}
