/** The configuration the filter ships with: one section
    (`FILTER_N_SECTIONS` = 1) and its coefficient tables, and what follows
    from those particular values. */
module Shipped {
  import opened FixedPoint
  import opened Multiply
  import opened Biquad

  const FILTER_N_SECTIONS: nat := 1

  /** `filter_CoefA`: a1 = -32197 (about -0.9826 in Q1.15), a2 = 0. */
  const CoefA: seq<I16> := [-32197, 0]

  /** `filter_CoefB`: b0 = b1 = 18287 (about 0.00872 in Q-5.21), b2 = 0. */
  const CoefB: seq<I16> := [18287, 18287, 0]

  const Filter: Design := Design(FILTER_N_SECTIONS, CoefA, CoefB)

  /** One call of the shipped filter is the single section applied to the
      widened sample and the two delay words. */
  lemma ShippedOneSection(x: I16, st: State)
    requires Fits(Filter, st)
    ensures var o := Section(x * TWO15, 18287, 18287, 0, -32197, 0, st[0], st[1]);
            Cascade(Filter, x * TWO15, st) == Step(o.y, [o.s0, o.s1])
  {
    ChainOne(Section, Filter, x * TWO15, st);
  }

  /** Because b2 = 0 and a2 = 0, the second delay word is zero after every
      call, whatever the input and the state. */
  lemma SecondWordZero(x: I16, st: State)
    requires Fits(Filter, st)
    ensures Filtering(Filter, x, st).state[1] == 0
  {
    ShippedOneSection(x, st);
    var v := x * TWO15;
    SectionRecurrence(v, 18287, 18287, 0, -32197, 0, st[0], st[1]);
  }

  /** The delay line of the shipped filter holds a first word within
      [-2^30, 2^30] (Q2.30's [-1.0, 1.0]) and a zero second word. */
  predicate Bounded(st: State) {
    |st| == 2 && -TWO30 <= st[0] <= TWO30 && st[1] == 0
  }

  /** One call of the shipped filter from `st` is exact: with
        m = floor(b*v / 2^21),  y = m + s0,  p = floor(a1*y / 2^15),
      the accumulator `y` (fft/filter.c:133-134), the `<< 1` and the `+=`
      inside `filter_MultA` of y by a1 (fft/filter.c:183-184), its result p,
      and the `+=` and `-=` of the new first delay word
      (fft/filter.c:139-141) all fit in 32 bits, and the call computes the
      first-order recurrence y, s0' = m - p, s1' = 0 with no wrap at all.
      (`filter_MultB` never wraps, by `MultBExact`, and the products by
      b2 = 0 and a2 = 0 are zero.) */
  predicate ExactCall(x: I16, st: State)
    requires Fits(Filter, st)
  {
    var m := Asr(x * TWO15 * 18287, TWO21);
    var y := m + st[0];
    var p := Asr(y * -32197, TWO15);
    && InI32(y)
    && InI32(High(y) * -32197 * TWO1)
    && InI32(High(y) * -32197 * TWO1 + Asr(Low16(y) * -32197, TWO15))
    && InI32(p)
    && InI32(st[1] + m)
    && InI32(m - p)
    && Cascade(Filter, x * TWO15, st) == Step(y, [m - p, 0])
  }

  /** From a bounded delay line no add, subtract, shift or product of a call
      of the shipped filter wraps, and the delay line stays bounded. */
  lemma NoOverflow(x: I16, st: State)
    requires Bounded(st)
    ensures Fits(Filter, st)
    ensures ExactCall(x, st)
    ensures Bounded(Filtering(Filter, x, st).state)
  {
    var v := x * TWO15;
    ShippedOneSection(x, st);
    SectionRecurrence(v, 18287, 18287, 0, -32197, 0, st[0], st[1]);
    var m := Asr(v * 18287, TWO21);
    assert -9362944 <= m <= 9362658 by {
      assert TWO21 * m <= v * 18287 < TWO21 * (m + 1);
    }
    var y := m + st[0];
    assert InI32(y);
    var p := Asr(y * -32197, TWO15);
    assert TWO15 * p <= y * -32197 < TWO15 * (p + 1);
    assert -TWO30 <= m - p <= TWO30;
    assert Asr(v * 0, TWO21) == 0 && Asr(y * 0, TWO15) == 0;
    var h, l := High(y), Low16(y);
    assert -16528 <= h <= 16527 by {
      assert y == h * TWO16 + l && 0 <= l < TWO16;
    }
    MulBound(h, -32197, 16528, 32197);
    var q := Asr(l * -32197, TWO15);
    assert -TWO16 <= q <= 0 by {
      MulBound(l, -32197, TWO16, 32197);
      assert TWO15 * q <= l * -32197 < TWO15 * (q + 1);
    }
  }

  /** Feeding any samples to the shipped filter from a bounded delay line
      (the initialised one in particular) never leaves it unbounded. */
  lemma {:induction false} RunStaysBounded(xs: seq<I16>, st: State)
    requires Bounded(st)
    ensures Fits(Filter, st)
    ensures Bounded(Run(Filter, xs, st).state)
    decreases |xs|
  {
    if xs != [] {
      NoOverflow(xs[0], st);
      RunStaysBounded(xs[1..], Filtering(Filter, xs[0], st).state);
    }
  }

  /** From the state `filter_InitState` leaves, no sequence of samples ever
      makes the shipped filter wrap: after any samples `xs`, the delay line
      is bounded and the next call, whatever its sample `x`, is exact. */
  lemma NeverWrapsFromInit(xs: seq<I16>, x: I16)
    ensures Fits(Filter, InitState(FILTER_N_SECTIONS))
    ensures var st := Run(Filter, xs, InitState(FILTER_N_SECTIONS)).state;
            Bounded(st) && ExactCall(x, st)
  {
    var st0 := InitState(FILTER_N_SECTIONS);
    RunStaysBounded(xs, st0);
    NoOverflow(x, Run(Filter, xs, st0).state);
  }

  /** One call of the shipped filter from a bounded delay line, given the
      two floor quotients it takes: the output sample and the new delay line. */
  lemma CallFrom(x: I16, s0: I32, m: int, p: int, out: I16)
    requires -TWO30 <= s0 <= TWO30
    requires TWO21 * m <= x * TWO15 * 18287 < TWO21 * (m + 1)
    requires TWO15 * p <= (m + s0) * -32197 < TWO15 * (p + 1)
    requires TWO16 * out <= m + s0 < TWO16 * (out + 1)
    ensures Fits(Filter, [s0, 0])
    ensures Filtering(Filter, x, [s0, 0]) == Output(out, [m - p, 0])
  {
    NoOverflow(x, [s0, 0]);
    AsrUnique(x * TWO15 * 18287, TWO21, m);
    AsrUnique((m + s0) * -32197, TWO15, p);
    AsrUnique(m + s0, TWO16, out);
  }

  /** Two calls of the shipped filter in a row. */
  lemma RunTwo(x1: I16, x2: I16, st: State)
    requires Fits(Filter, st)
    ensures var o1 := Filtering(Filter, x1, st);
            var o2 := Filtering(Filter, x2, o1.state);
            Run(Filter, [x1, x2], st) == Trace([o1.sample, o2.sample], o2.state)
  {
    var o1 := Filtering(Filter, x1, st);
    var o2 := Filtering(Filter, x2, o1.state);
    assert [x1, x2][1..] == [x2];
    assert Run(Filter, [x2], o1.state) == Trace([o2.sample], o2.state);
  }

  /** The first two outputs of the unit impulse (32767, then 0) from the
      initialised state: 142 and 283, with the first delay word at 18562167
      after the impulse and 18238712 after the next sample. */
  lemma ImpulseResponse()
    ensures Fits(Filter, InitState(FILTER_N_SECTIONS))
    ensures var t := Run(Filter, [32767, 0], InitState(FILTER_N_SECTIONS));
            t.outputs == [142, 283] && t.state == [18238712, 0]
  {
    assert InitState(FILTER_N_SECTIONS) == [0, 0];
    CallFrom(32767, 0, 9362658, -9199509, 142);
    CallFrom(0, 18562167, 0, -18238712, 283);
    RunTwo(32767, 0, [0, 0]);
  }
}
