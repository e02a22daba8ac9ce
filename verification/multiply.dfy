/** The two split-multiply primitives of the kernel. Each multiplies a 32-bit
    Q2.30 accumulator by a 16-bit coefficient using only 32-bit products: the
    accumulator is split into its high half `x >> 16` and its unsigned low half
    `x & 0xffff`, each half is multiplied by the coefficient, and the partial
    products are recombined with shifts that encode the coefficient's Q-format.
    Each is proved equal to a single wide multiply followed by a shift. */
module Multiply {
  import opened FixedPoint

  /** High half of the split: `x >> 16`. */
  function High(x: I32): (h: int)
    ensures -TWO15 <= h < TWO15
    ensures x == h * TWO16 + Low16(x)
  {
    Asr(x, TWO16)
  }

  /** Neither partial product of the split overflows 32 bits: the high-half
      product lies in [-2^30, 2^30] and the low-half product in (-2^31, 2^31). */
  lemma SplitProductsFit(x: I32, coef: I16)
    ensures -TWO30 <= High(x) * coef <= TWO30
    ensures -TWO31 < Low16(x) * coef < TWO31
  {
    MulBound(High(x), coef, TWO15, TWO15);
    MulBound(Low16(x), coef, TWO16 - 1, TWO15);
  }

  /** The split recombines into the full product:
      x*coef == (high*coef)*2^16 + low*coef. */
  lemma SplitProduct(x: I32, coef: I16)
    ensures x * coef == (High(x) * coef) * TWO16 + Low16(x) * coef
  {
    var h, l := High(x), Low16(x);
    assert x == h * TWO16 + l;
    assert x * coef == (h * TWO16 + l) * coef;
    assert (h * TWO16 + l) * coef == (h * coef) * TWO16 + l * coef;
  }

  /** The Q-5.21 product as one wide multiply: floor(x*coef / 2^21). */
  function WideB(x: I32, coef: I16): I32 {
    WideBBound(x, coef);
    Asr(x * coef, TWO21)
  }

  /** The Q1.15 product as one wide multiply: floor(x*coef / 2^15), wrapped
      to 32 bits. */
  function WideA(x: I32, coef: I16): I32 {
    Wrap32(Asr(x * coef, TWO15))
  }

  /** A Q2.30 value times a Q-5.21 coefficient stays within [-2^25, 2^25]. */
  lemma WideBBound(x: I32, coef: I16)
    ensures -0x200_0000 <= Asr(x * coef, TWO21) <= 0x200_0000
  {
    MulBound(x, coef, TWO31, TWO15);
    var r := Asr(x * coef, TWO21);
    assert TWO21 * r <= x * coef < TWO21 * (r + 1);
  }

  /** `filter_MultB`: Q2.30 times a Q-5.21 coefficient gives Q2.30, by the
      split multiply in 32-bit arithmetic. */
  function MultB(x: I32, coef: I16): I32 {
    var prod := Mul32(High(x), coef);
    Asr(Add32(prod, Asr(Mul32(Low16(x), coef), TWO16)), TWO5)
  }

  /** Every intermediate of `filter_MultB` fits in 32 bits, so each 32-bit
      operation in it is exact, and the result is floor(x*coef / 2^21): the
      split agrees with one wide multiply followed by a shift right by 21. */
  lemma MultBExact(x: I32, coef: I16)
    ensures InI32(High(x) * coef)
    ensures InI32(Low16(x) * coef)
    ensures InI32(High(x) * coef + Asr(Low16(x) * coef, TWO16))
    ensures MultB(x, coef) == Asr(x * coef, TWO21) == WideB(x, coef)
  {
    var hc, lc := High(x) * coef, Low16(x) * coef;
    SplitProductsFit(x, coef);
    var q := Asr(lc, TWO16);
    assert -TWO15 <= q < TWO15;
    SplitProduct(x, coef);
    AsrAddMultiple(lc, hc, TWO16);
    assert hc + q == Asr(x * coef, TWO16);
    AsrAsr(x * coef, TWO16, TWO5);
  }

  /** `filter_MultA`: Q2.30 times a Q1.15 coefficient gives Q2.30, by the
      split multiply in 32-bit arithmetic. */
  function MultA(x: I32, coef: I16): I32 {
    var prod := Shl32(Mul32(High(x), coef), TWO1);
    Add32(prod, Asr(Mul32(Low16(x), coef), TWO15))
  }

  /** In `filter_MultA` both partial products are exact; only the `<< 1` of the
      high product and the final add may wrap, and the result is
      floor(x*coef / 2^15) wrapped to 32 bits. */
  lemma MultAExact(x: I32, coef: I16)
    ensures InI32(High(x) * coef)
    ensures InI32(Low16(x) * coef)
    ensures MultA(x, coef) == Wrap32(Asr(x * coef, TWO15)) == WideA(x, coef)
  {
    var hc, lc := High(x) * coef, Low16(x) * coef;
    SplitProductsFit(x, coef);
    SplitProduct(x, coef);
    assert x * coef == (2 * hc) * TWO15 + lc;
    AsrAddMultiple(lc, 2 * hc, TWO15);
    WrapAddInner(hc * TWO1, Asr(lc, TWO15));
  }

  /** The wrap in `filter_MultA` is reachable: -2.0 times -1.0 is +2.0, which
      Q2.30 cannot hold, and the result wraps to -2.0. */
  lemma MultACanWrap()
    ensures !InI32(Asr(-TWO31 * -TWO15, TWO15))
    ensures MultA(-TWO31, -TWO15) == -TWO31
  {
    MultAExact(-TWO31, -TWO15);
    assert Asr(-TWO31 * -TWO15, TWO15) == TWO31;
  }

  /** A product bound: |a| <= A and |b| <= B give |a*b| <= A*B. */
  lemma MulBound(a: int, b: int, bA: int, bB: int)
    requires -bA <= a <= bA && -bB <= b <= bB
    ensures -(bA * bB) <= a * b <= bA * bB
  {
    if a >= 0 {
      MulLeMono(a, b, bB);
      MulLeMono(a, -bB, b);
      MulLeMono(bB, a, bA);
    } else {
      MulLeMono(-a, b, bB);
      MulLeMono(-a, -bB, b);
      MulLeMono(bB, -a, bA);
    }
  }
}
