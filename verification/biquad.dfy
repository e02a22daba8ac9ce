/** The cascade of second-order sections in Direct-Form-II-Transposed layout:
    the per-sample kernel `filter_Filtering`, its state initialisation
    `filter_InitState`, and the repeated per-sample use of one state buffer.
    The section count and the coefficient tables are parameters (a `Design`)
    rather than compile-time constants. */
module Biquad {
  import opened FixedPoint
  import opened Multiply

  /** `IN2SUM`: the input is shifted left by 15 bits (Q1.15 to Q2.30). */
  const IN2SUM_SCALE: int := TWO15
  /** `SUM2OUT`: the final accumulator is shifted right by 16 bits. */
  const SUM2OUT_SCALE: int := TWO16

  /** A filter design: `sections` second-order sections, two feedback
      coefficients (Q1.15) and three feedforward coefficients (Q-5.21) per
      section, stored section after section. */
  datatype Design = Design(sections: nat, coefA: seq<I16>, coefB: seq<I16>) {

    predicate Valid() {
      |coefA| == 2 * sections && |coefB| == 3 * sections
    }

    /** The first `k` sections. */
    function Take(k: nat): (d: Design)
      requires Valid() && k <= sections
      ensures d.Valid() && d.sections == k
    {
      Design(k, coefA[..2 * k], coefB[..3 * k])
    }

    /** The sections from `k` on. */
    function Drop(k: nat): (d: Design)
      requires Valid() && k <= sections
      ensures d.Valid() && d.sections == sections - k
    {
      Design(sections - k, coefA[2 * k..], coefB[3 * k..])
    }
  }

  /** The cascade of `d1` followed by `d2`. */
  function Then(d1: Design, d2: Design): (d: Design)
    requires d1.Valid() && d2.Valid()
    ensures d.Valid() && d.sections == d1.sections + d2.sections
  {
    Design(d1.sections + d2.sections, d1.coefA + d2.coefA, d1.coefB + d2.coefB)
  }

  /** The delay line: two 32-bit words per section, section after section. */
  type State = seq<I32>

  /** The state buffer holds exactly the 2*N words the design needs. */
  predicate Fits(d: Design, st: State) {
    d.Valid() && |st| == 2 * d.sections
  }

  predicate IsZero(st: State) {
    forall k :: 0 <= k < |st| ==> st[k] == 0
  }

  /** `filter_InitState`: all 2*N words of the state set to zero. */
  function InitState(sections: nat): (st: State)
    ensures |st| == 2 * sections
    ensures forall k :: 0 <= k < |st| ==> st[k] == 0
  {
    seq(2 * sections, _ => 0)
  }

  /** The outcome of one section: its output `y` (the next section's input)
      and its two updated delay words. */
  datatype SectionOut = SectionOut(y: I32, s0: I32, s1: I32)

  /** One DF-II-T section: with the products taken as the single wide
      multiplies the split multiplies equal, and every add and subtract
      wrapping at 32 bits,
        y   = b0*v + s0
        s0' = s1 + b1*v - a1*y
        s1' =      b2*v - a2*y */
  function Section(v: I32, b0: I16, b1: I16, b2: I16, a1: I16, a2: I16, s0: I32, s1: I32)
    : SectionOut
  {
    var y := Add32(WideB(v, b0), s0);
    SectionOut(y, Sub32(Add32(s1, WideB(v, b1)), WideA(y, a1)), Sub32(WideB(v, b2), WideA(y, a2)))
  }

  /** Each delay word a section produces is its exact recurrence value
      reduced once modulo 2^32: the wraps of the intermediate sum and of the
      feedback product do not accumulate. */
  lemma SectionRecurrence(v: I32, b0: I16, b1: I16, b2: I16, a1: I16, a2: I16, s0: I32, s1: I32)
    ensures var o := Section(v, b0, b1, b2, a1, a2, s0, s1);
            && o.s0 == Wrap32(s1 + Asr(v * b1, TWO21) - Asr(o.y * a1, TWO15))
            && o.s1 == Wrap32(Asr(v * b2, TWO21) - Asr(o.y * a2, TWO15))
  {
    var y := Add32(WideB(v, b0), s0);
    var p1, p2 := Asr(y * a1, TWO15), Asr(y * a2, TWO15);
    WrapSubInner(Add32(s1, WideB(v, b1)), p1);
    WrapAddInner(s1 + WideB(v, b1), -p1);
    WrapSubInner(WideB(v, b2), p2);
  }

  /** A zero input through a zeroed section gives zero everywhere. */
  lemma SectionZero(b0: I16, b1: I16, b2: I16, a1: I16, a2: I16)
    ensures Section(0, b0, b1, b2, a1, a2, 0, 0) == SectionOut(0, 0, 0)
  {
  }

  /** The accumulator leaving a run of sections, and the updated state. */
  datatype Step = Step(acc: I32, state: State)

  /** What a section computes from the incoming accumulator, its five
      coefficients (b0, b1, b2, a1, a2) and its two delay words. The cascade
      structure below is stated for any such kernel; `Section` is the one the
      filter uses. */
  type Kernel = (I32, I16, I16, I16, I16, I16, I32, I32) -> SectionOut

  /** Runs `v` through the sections of `d` in order, section 0 first, each
      section computed by `k` from its own coefficients and delay words. */
  function Chain(k: Kernel, d: Design, v: I32, st: State): (r: Step)
    requires Fits(d, st)
    ensures |r.state| == |st|
    decreases d.sections
  {
    if d.sections == 0 then Step(v, st)
    else
      var o := k(v, d.coefB[0], d.coefB[1], d.coefB[2], d.coefA[0], d.coefA[1], st[0], st[1]);
      var rest := Chain(k, d.Drop(1), o.y, st[2..]);
      Step(rest.acc, [o.s0, o.s1] + rest.state)
  }

  /** The sections loop of `filter_Filtering`. */
  function Cascade(d: Design, v: I32, st: State): Step
    requires Fits(d, st)
  {
    Chain(Section, d, v, st)
  }

  /** `(I32)sampleIn << IN2SUM`: never wraps, lands in [-2^30, 2^30). */
  function Widen(sampleIn: I16): (r: I32)
    ensures r == sampleIn * TWO15
    ensures -TWO30 <= r < TWO30
  {
    Shl32(sampleIn, IN2SUM_SCALE)
  }

  /** `(I16)(accA >> SUM2OUT)`: the floor of acc / 2^16; the cast to 16 bits
      never changes it. */
  function Demote(acc: I32): (r: I16)
    ensures r == Asr(acc, TWO16)
    ensures r * TWO16 <= acc < (r + 1) * TWO16
  {
    Wrap16(Asr(acc, SUM2OUT_SCALE))
  }

  /** What one call returns: the output sample and the state it leaves. */
  datatype Output = Output(sample: I16, state: State)

  /** `filter_Filtering`: one input sample through the whole cascade. */
  function Filtering(d: Design, sampleIn: I16, st: State): (out: Output)
    requires Fits(d, st)
    ensures |out.state| == |st|
    ensures out.sample * TWO16 <= Cascade(d, sampleIn * TWO15, st).acc < (out.sample + 1) * TWO16
  {
    var r := Cascade(d, Widen(sampleIn), st);
    Output(Demote(r.acc), r.state)
  }

  /** `filter_Filtering` as the C code writes it, over a state sequence: the
      running indices iA and iB advance by 2 and 3 per section, and after the
      loop they stand at 2N and 3N. */
  method FilterSample(d: Design, sampleIn: I16, state: State)
    returns (sampleOut: I16, newState: State)
    requires Fits(d, state)
    ensures Output(sampleOut, newState) == Filtering(d, sampleIn, state)
  {
    var st := state;
    var accA := Widen(sampleIn);
    ghost var v := accA;
    var iA, iB := 0, 0;
    var i := 0;
    ResumeStart(Section, d, v, state);
    while i < d.sections
      invariant 0 <= i <= d.sections
      invariant iA == 2 * i && iB == 3 * i
      invariant |st| == |state|
      invariant Cascade(d, v, state) == Resume(Section, d, i, accA, st)
    {
      ghost var (acc0, st0) := (accA, st);
      accA, st := SectionInPlace(d, accA, st, iA, iB);
      LoopStep(Section, d, i, iA, iB, acc0, st0, accA, st);
      iA, iB := iA + 2, iB + 3;
      i := i + 1;
    }
    assert iA == 2 * d.sections && iB == 3 * d.sections;
    ResumeEnd(Section, d, accA, st);
    sampleOut := Demote(accA);
    newState := st;
  }

  /** The result of the cascade once sections 0..i-1 have been applied in
      place: the words before 2i are final, and the rest of the cascade runs
      from accumulator `acc` on the words from 2i on. */
  function Resume(k: Kernel, d: Design, i: nat, acc: I32, st: State): Step
    requires Fits(d, st) && i <= d.sections
  {
    var r := Chain(k, d.Drop(i), acc, st[2 * i..]);
    Step(r.acc, st[..2 * i] + r.state)
  }

  /** Before the loop, the pending result is the whole cascade. */
  lemma ResumeStart(k: Kernel, d: Design, v: I32, st: State)
    requires Fits(d, st)
    ensures Resume(k, d, 0, v, st) == Chain(k, d, v, st)
  {
    assert d.Drop(0) == d && st[..0] == [] && st[0..] == st;
  }

  /** After the loop, nothing is pending. */
  lemma ResumeEnd(k: Kernel, d: Design, acc: I32, st: State)
    requires Fits(d, st)
    ensures Resume(k, d, d.sections, acc, st) == Step(acc, st)
  {
    assert st[..2 * d.sections] == st;
  }

  /** One turn of the sections loop: running section i in place and
      advancing the cursor leaves the pending result unchanged. */
  lemma LoopStep(k: Kernel, d: Design, i: nat, iA: nat, iB: nat,
                 acc: I32, st: State, acc': I32, st': State)
    requires Fits(d, st) && i < d.sections
    requires iA == 2 * i && iB == 3 * i
    requires var o := k(acc, d.coefB[iB], d.coefB[iB + 1], d.coefB[iB + 2],
                        d.coefA[iA], d.coefA[iA + 1], st[iA], st[iA + 1]);
             acc' == o.y && st' == st[iA := o.s0][iA + 1 := o.s1]
    ensures Fits(d, st')
    ensures Resume(k, d, i, acc, st) == Resume(k, d, i + 1, acc', st')
  {
    var o := k(acc, d.coefB[iB], d.coefB[iB + 1], d.coefB[iB + 2],
               d.coefA[iA], d.coefA[iA + 1], st[iA], st[iA + 1]);
    DropStep(k, d, i, iA, iB, acc, st);
    OverwriteTwo(st, iA, o.s0, o.s1);
    var r' := Chain(k, d.Drop(i + 1), acc', st'[iA + 2..]);
    assert st[..iA] + ([o.s0, o.s1] + r'.state) == (st[..iA] + [o.s0, o.s1]) + r'.state;
  }

  /** Overwriting two adjacent words splits the sequence around them. */
  lemma OverwriteTwo<T>(s: seq<T>, j: nat, x: T, y: T)
    requires j + 1 < |s|
    ensures s[j := x][j + 1 := y][..j + 2] == s[..j] + [x, y]
    ensures s[j := x][j + 1 := y][j + 2..] == s[j + 2..]
  {
  }

  /** The body of the sections loop of `filter_Filtering` for the section
      whose coefficients start at coefA[iA] and coefB[iB]: with the split
      multiplies, it rewrites st[iA] and st[iA+1] with the section's new
      delay words, touches no other word, and returns the section's output. */
  method SectionInPlace(d: Design, accIn: I32, st: State, iA: nat, iB: nat)
    returns (accA: I32, st': State)
    requires d.Valid() && iA + 1 < |st| && iA + 1 < |d.coefA| && iB + 2 < |d.coefB|
    ensures var o := Section(accIn, d.coefB[iB], d.coefB[iB + 1], d.coefB[iB + 2],
                             d.coefA[iA], d.coefA[iA + 1], st[iA], st[iA + 1]);
            accA == o.y && st' == st[iA := o.s0][iA + 1 := o.s1]
  {
    st' := st;
    var multB := accIn;
    MultBExact(multB, d.coefB[iB]);
    MultBExact(multB, d.coefB[iB + 1]);
    MultBExact(multB, d.coefB[iB + 2]);
    accA := MultB(multB, d.coefB[iB]);
    accA := Add32(accA, st'[iA]);
    var multA := accA;
    MultAExact(multA, d.coefA[iA]);
    MultAExact(multA, d.coefA[iA + 1]);
    var accB := st'[iA + 1];
    accB := Add32(accB, MultB(multB, d.coefB[iB + 1]));
    accB := Sub32(accB, MultA(multA, d.coefA[iA]));
    st' := st'[iA := accB];
    accB := MultB(multB, d.coefB[iB + 2]);
    accB := Sub32(accB, MultA(multA, d.coefA[iA + 1]));
    st' := st'[iA + 1 := accB];
  }

  /** The cascade from section i on is section i, on coefB[iB..iB+2],
      coefA[iA..iA+1] and state words iA, iA+1 (iA = 2i, iB = 3i), followed
      by the cascade from section i+1 on. */
  lemma DropStep(k: Kernel, d: Design, i: nat, iA: nat, iB: nat, acc: I32, st: State)
    requires Fits(d, st) && i < d.sections
    requires iA == 2 * i && iB == 3 * i
    ensures var o := k(acc, d.coefB[iB], d.coefB[iB + 1], d.coefB[iB + 2],
                       d.coefA[iA], d.coefA[iA + 1], st[iA], st[iA + 1]);
            var rest := Chain(k, d.Drop(i + 1), o.y, st[iA + 2..]);
            Chain(k, d.Drop(i), acc, st[iA..]) == Step(rest.acc, [o.s0, o.s1] + rest.state)
  {
    assert d.Drop(i).Drop(1) == d.Drop(i + 1) by {
      assert d.coefA[iA..][2..] == d.coefA[iA + 2..];
      assert d.coefB[iB..][3..] == d.coefB[iB + 3..];
    }
    assert st[iA..][2..] == st[iA + 2..];
  }

  /** A design is its first `k` sections followed by the rest. */
  lemma TakeThenDrop(d: Design, k: nat)
    requires d.Valid() && k <= d.sections
    ensures Then(d.Take(k), d.Drop(k)) == d
  {
    assert d.coefA[..2 * k] + d.coefA[2 * k..] == d.coefA;
    assert d.coefB[..3 * k] + d.coefB[3 * k..] == d.coefB;
  }

  /** Dropping the first section of a concatenation drops it from the first part. */
  lemma ThenDrop(d1: Design, d2: Design)
    requires d1.Valid() && d2.Valid() && d1.sections > 0
    ensures Then(d1, d2).Drop(1) == Then(d1.Drop(1), d2)
  {
    assert (d1.coefA + d2.coefA)[2..] == d1.coefA[2..] + d2.coefA;
    assert (d1.coefB + d2.coefB)[3..] == d1.coefB[3..] + d2.coefB;
  }

  /** A single section as a cascade. */
  lemma ChainOne(k: Kernel, d: Design, v: I32, st: State)
    requires Fits(d, st) && d.sections == 1
    ensures var o := k(v, d.coefB[0], d.coefB[1], d.coefB[2], d.coefA[0], d.coefA[1], st[0], st[1]);
            Chain(k, d, v, st) == Step(o.y, [o.s0, o.s1])
  {
    assert st[2..] == [];
  }

  /** A cascade of two designs is the first one feeding the second: the
      second starts from the first's output accumulator, and each keeps its
      own part of the state. */
  lemma {:induction false} ChainThen(k: Kernel, d1: Design, d2: Design, v: I32, s1: State, s2: State)
    requires Fits(d1, s1) && Fits(d2, s2)
    ensures Fits(Then(d1, d2), s1 + s2)
    ensures var r1 := Chain(k, d1, v, s1);
            var r2 := Chain(k, d2, r1.acc, s2);
            Chain(k, Then(d1, d2), v, s1 + s2) == Step(r2.acc, r1.state + r2.state)
    decreases d1.sections
  {
    var d := Then(d1, d2);
    if d1.sections == 0 {
      assert d1.coefA == [] && d1.coefB == [];
      assert d == d2;
      assert s1 + s2 == s2;
    } else {
      ThenDrop(d1, d2);
      assert (s1 + s2)[2..] == s1[2..] + s2;
      var o := k(v, d1.coefB[0], d1.coefB[1], d1.coefB[2], d1.coefA[0], d1.coefA[1], s1[0], s1[1]);
      ChainThen(k, d1.Drop(1), d2, o.y, s1[2..], s2);
      var r1 := Chain(k, d1.Drop(1), o.y, s1[2..]);
      var r2 := Chain(k, d2, r1.acc, s2);
      assert [o.s0, o.s1] + (r1.state + r2.state) == ([o.s0, o.s1] + r1.state) + r2.state;
    }
  }

  /** Index bookkeeping: section i reads exactly coefB[3i..3i+2],
      coefA[2i..2i+1] and state words 2i and 2i+1, with the accumulator left
      by the sections before it, and writes state words 2i and 2i+1. */
  lemma ChainSectionWords(k: Kernel, d: Design, i: nat, v: I32, st: State)
    requires Fits(d, st) && i < d.sections
    ensures var p := Chain(k, d.Take(i), v, st[..2 * i]);
            var o := k(p.acc, d.coefB[3 * i], d.coefB[3 * i + 1], d.coefB[3 * i + 2],
                       d.coefA[2 * i], d.coefA[2 * i + 1], st[2 * i], st[2 * i + 1]);
            var r := Chain(k, d, v, st);
            r.state[2 * i] == o.s0 && r.state[2 * i + 1] == o.s1
  {
    var p := Chain(k, d.Take(i), v, st[..2 * i]);
    var r := Chain(k, d, v, st);
    var q := Chain(k, d.Drop(i), p.acc, st[2 * i..]);
    assert r.state == p.state + q.state by {
      TakeThenDrop(d, i);
      assert st == st[..2 * i] + st[2 * i..];
      ChainThen(k, d.Take(i), d.Drop(i), v, st[..2 * i], st[2 * i..]);
    }
    DropStep(k, d, i, 2 * i, 3 * i, p.acc, st);
    assert r.state[2 * i] == q.state[0] && r.state[2 * i + 1] == q.state[1];
  }

  /** A kernel that keeps a zero section at zero keeps a zero cascade at zero. */
  lemma {:induction false} ChainZero(k: Kernel, d: Design, st: State)
    requires Fits(d, st) && IsZero(st)
    requires forall b0, b1, b2, a1, a2 :: k(0, b0, b1, b2, a1, a2, 0, 0) == SectionOut(0, 0, 0)
    ensures Chain(k, d, 0, st) == Step(0, st)
    decreases d.sections
  {
    if d.sections > 0 {
      ChainZero(k, d.Drop(1), st[2..]);
      assert st == [st[0], st[1]] + st[2..];
    }
  }

  /** Zero input from the all-zero state: output 0, state still all zero. */
  lemma FilteringZero(d: Design, st: State)
    requires Fits(d, st) && IsZero(st)
    ensures Filtering(d, 0, st) == Output(0, st)
  {
    forall b0, b1, b2, a1, a2 ensures Section(0, b0, b1, b2, a1, a2, 0, 0) == SectionOut(0, 0, 0) {
      SectionZero(b0, b1, b2, a1, a2);
    }
    ChainZero(Section, d, st);
  }

  /** The outputs and final state of feeding `samples` one call at a time,
      each call starting from the state the previous one left. */
  datatype Trace = Trace(outputs: seq<I16>, state: State)

  function Run(d: Design, samples: seq<I16>, st: State): (t: Trace)
    requires Fits(d, st)
    ensures |t.outputs| == |samples|
    ensures |t.state| == |st|
    decreases |samples|
  {
    if samples == [] then Trace([], st)
    else
      var o := Filtering(d, samples[0], st);
      var rest := Run(d, samples[1..], o.state);
      Trace([o.sample] + rest.outputs, rest.state)
  }

  /** Feeding two blocks in sequence equals feeding their concatenation: the
      state is the only thing carried from call to call. */
  lemma {:induction false} RunAppend(d: Design, xs: seq<I16>, ys: seq<I16>, st: State)
    requires Fits(d, st)
    ensures var a := Run(d, xs, st);
            var b := Run(d, ys, a.state);
            Run(d, xs + ys, st) == Trace(a.outputs + b.outputs, b.state)
    decreases |xs|
  {
    if xs == [] {
      assert xs + ys == ys;
    } else {
      var o := Filtering(d, xs[0], st);
      assert (xs + ys)[1..] == xs[1..] + ys;
      RunAppend(d, xs[1..], ys, o.state);
      var a := Run(d, xs[1..], o.state);
      var b := Run(d, ys, a.state);
      assert [o.sample] + (a.outputs + b.outputs) == ([o.sample] + a.outputs) + b.outputs;
    }
  }

  /** Zero samples from the all-zero state: every output is 0 and the state
      stays zero. */
  lemma {:induction false} RunZero(d: Design, samples: seq<I16>, st: State)
    requires Fits(d, st) && IsZero(st)
    requires forall k :: 0 <= k < |samples| ==> samples[k] == 0
    ensures forall k :: 0 <= k < |samples| ==> Run(d, samples, st).outputs[k] == 0
    ensures Run(d, samples, st).state == st
    decreases |samples|
  {
    if samples != [] {
      FilteringZero(d, st);
      RunZero(d, samples[1..], st);
    }
  }
}
