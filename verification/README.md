# Fixed-point cascaded biquad filter

This project models the numeric kernel of a generated fixed-point IIR filter.
The filter is a cascade of second-order sections in Direct-Form-II-Transposed
layout. It has 16-bit samples and a 32-bit Q2.30 accumulator. B coefficients
are Q-5.21 and A coefficients are Q1.15. Every 32-bit operation runs in "Wrap"
overflow mode with "Truncation" rounding. The model covers the following:

- the two split-multiply primitives `filter_MultB` and `filter_MultA`;
- the per-sample kernel `filter_Filtering`, which widens the input by `IN2SUM`, runs the sections loop and demotes by `SUM2OUT`;
- the state initialisation `filter_InitState`;
- the shipped configuration: one section, `filter_CoefA = {-32197, 0}` and `filter_CoefB = {18287, 18287, 0}`.

Modules:

- `FixedPoint` (`fixedpoint.dfy`): the `I16` and `I32` ranges, and `Wrap32`/`Wrap16`, the unique value in range congruent to the exact result. It also has `Asr`: `x >> k` as floor division by 2^k, which is what the arithmetic shift does for negative operands too. `Low16` is `x & 0xffff`. `Add32`, `Sub32`, `Mul32` and `Shl32` are C's 32-bit operations, each written as the exact result wrapped.
- `Multiply` (`multiply.dfy`): `MultB` and `MultA` written exactly as the split multiply does them. Each is proved equal to a single wide multiply followed by a shift: `WideB` and `WideA`.
- `Biquad` (`biquad.dfy`): the filter design as data (`Design`: section count plus the two coefficient tables), the delay line as a sequence of 2·N words, and the section recurrence (`Section`). The cascade is a structural recursion over the sections (`Chain`/`Cascade`), with `Filtering` as the function of one call and `Run` feeding a stream of samples. `FilterSample` is the loop of the C code with its running `iA`/`iB` indices over the sequence state, and it is proved equal to `Filtering`. `Section` is written with the wide-multiply forms; `SectionInPlace`, the loop body, uses the split multiplies and is proved to agree with `Section`.
- `Shipped` (`shipped.dfy`): the compiled-in tables and what follows from their particular values.

The C `I32`/`I16` integers are unbounded `int`s restricted to their ranges. Every wrap is explicit. Where C has undefined behaviour on signed overflow or on left shifts of negative values, the model uses two's-complement wrap-around, as the declared Wrap mode says. The state buffer is a value, and each call returns the new state instead of updating the buffer in place. So one call's result depends only on its sample, its state and the design. Two instances with separate state sequences cannot affect each other.

## Model

| member | source | states |
|---|---|---|
| FixedPoint.Wrap32 | fft/filter.c:37-59 | The Wrap mode at 32 bits: the result is an I32 congruent to the exact value modulo 2^32, and it is the exact value whenever that fits. |
| FixedPoint.Wrap16 | fft/filter.c:31-35 | The `(I16)` cast in Wrap mode: a value in 16 bits congruent modulo 2^16, and unchanged when it already fits. |
| FixedPoint.Asr | fft/filter.c:149 | An arithmetic right shift rounds toward minus infinity: `scale*r <= x < scale*(r+1)`. |
| FixedPoint.Low16 | fft/filter.c:167 | `x & 0xffff` is the unsigned low half in [0, 2^16), and the high half times 2^16 plus it gives back `x`. |
| FixedPoint.WrapCongruent | fft/filter.c:49-59 | Values congruent modulo 2^32 wrap to the same I32. |
| FixedPoint.WrapAddInner | fft/filter.c:140-141 | An intermediate wrap of an operand does not change a wrapped sum. |
| FixedPoint.WrapSubInner | fft/filter.c:141 | An intermediate wrap of the subtrahend does not change a wrapped difference. |
| FixedPoint.AsrAsr | fft/filter.c:167 | Shifting right by 16 and then by 5 is shifting right by 21. |
| FixedPoint.AsrAddMultiple | fft/filter.c:167 | Adding a multiple of 2^k before the shift adds the quotient after it, which recombines the two halves. |
| FixedPoint.AsrUnique | fft/filter.c:149 | The shift result is the unique floor quotient. |
| Multiply.High | fft/filter.c:166 | `x >> 16` of an I32 is a 16-bit value, and with the low half it recombines to `x`. |
| Multiply.SplitProductsFit | fft/filter.c:166-167 | Neither partial product of the split overflows: the high product is within [-2^30, 2^30] and the low product within (-2^31, 2^31). |
| Multiply.SplitProduct | fft/filter.c:162-170 | The two partial products recombine to the full product `x*coef`. |
| Multiply.WideBBound | fft/filter.c:155-160 | A Q2.30 value times a Q-5.21 coefficient, as Q2.30, lies in [-2^25, 2^25]. |
| Multiply.MultBExact | fft/filter.c:162-170 | Both partial products and their sum fit in 32 bits, so no operation in `filter_MultB` wraps. The result equals floor(x·coef / 2^21). |
| Multiply.MultAExact | fft/filter.c:179-187 | Both partial products of `filter_MultA` are exact, and the result equals floor(x·coef / 2^15) wrapped to 32 bits. Only the `<< 1` and the final add can wrap. |
| Multiply.MultACanWrap | fft/filter.c:172-187 | The wrap is reachable: -2.0 times -1.0 is +2.0, which Q2.30 cannot hold, and `filter_MultA` returns -2.0. |
| Biquad.Design.Take | fft/filter.c:71-73 | The first k sections form a well-formed design: 2k A and 3k B coefficients. |
| Biquad.Design.Drop | fft/filter.c:71-73 | The sections from k on form a well-formed design of N-k sections. |
| Biquad.InitState | fft/filter.c:106-114 | Initialisation gives exactly 2·N words, all zero. |
| Biquad.SectionRecurrence | fft/filter.c:130-146 | One section's new delay words are s1 + ⌊b1·v/2^21⌋ - ⌊a1·y/2^15⌋ and ⌊b2·v/2^21⌋ - ⌊a2·y/2^15⌋, each wrapped once modulo 2^32. The wraps taken part-way through do not add up. |
| Biquad.Chain | fft/filter.c:127-147 | The cascade leaves a state of the same length it was given. |
| Biquad.Widen | fft/filter.c:125 | Widening the sample by `<< IN2SUM` never wraps and gives `sampleIn·2^15`, within [-2^30, 2^30). |
| Biquad.Demote | fft/filter.c:149-151 | The output is floor(acc / 2^16), which always fits in 16 bits, so the `(I16)` cast never changes it. |
| Biquad.Filtering | fft/filter.c:118-152 | One call keeps the state length. The output sample is the floor of the cascade's final accumulator over 2^16, where the cascade runs from input·2^15. |
| Biquad.FilterSample | fft/filter.c:118-152 | The C loop over the sequence state returns exactly the output sample and the state of `Filtering`. Its loop invariants keep `iA` = 2i and `iB` = 3i, so the loop ends with them at 2N and 3N. |
| Biquad.SectionInPlace | fft/filter.c:130-146 | One turn of the sections loop with the split multiplies returns the section's output. It overwrites words iA and iA+1 with the section's new delay words, and only those. |
| Biquad.LoopStep | fft/filter.c:127-147 | After one turn of the loop, the cascade result still pending from section i+1 on equals the one that was pending from section i on. |
| Biquad.ResumeStart | fft/filter.c:127 | Before the loop, the whole cascade is pending. |
| Biquad.ResumeEnd | fft/filter.c:147-149 | After N turns, nothing is pending. |
| Biquad.DropStep | fft/filter.c:128-146 | The cascade from section i on is section i, on coefB[3i..3i+2], coefA[2i..2i+1] and state words 2i and 2i+1, followed by the cascade from section i+1 on. |
| Biquad.OverwriteTwo | fft/filter.c:142-146 | Writing words j and j+1 leaves the words before j and after j+1 unchanged. |
| Biquad.ChainSectionWords | fft/filter.c:127-147 | Section i reads only coefB[3i..3i+2], coefA[2i..2i+1] and state words 2i and 2i+1, starting from the accumulator the earlier sections leave. Its new delay words land in words 2i and 2i+1. |
| Biquad.ChainThen | fft/filter.c:127-147 | The cascade of two designs is the first one's output feeding the second, each on its own part of the state. Order matters: section 0 runs first. |
| Biquad.TakeThenDrop | fft/filter.c:71-73 | A design is its first k sections followed by the rest. |
| Biquad.ThenDrop | fft/filter.c:71-73 | Dropping the first section of a concatenation drops it from the first part. |
| Biquad.ChainOne | fft/filter.c:128-147 | A one-section cascade is that section on words 0 and 1. |
| Biquad.ChainZero | fft/filter.c:127-147 | If a section maps zero input and zero state to zeros, the cascade does too. |
| Biquad.SectionZero | fft/filter.c:130-146 | A zero input through a section whose delay words are zero gives output 0 and zero delay words, whatever the coefficients, because both multiplies of 0 are 0. |
| Biquad.FilteringZero | fft/filter.c:125-151 | A zero sample from an all-zero state gives output 0 and leaves the state all zero. |
| Biquad.Then | fft/filter.c:71-73 | Concatenated designs are well formed, and their section counts add up. |
| Biquad.Run | fft/filter.c:118-152 | Feeding a stream gives one output per sample and keeps the state length. |
| Biquad.RunAppend | fft/filter.c:118-152 | Feeding two blocks one after the other equals feeding their concatenation: the state is all that one call carries to the next. |
| Biquad.RunZero | fft/filter.c:125-151 | A stream of zeros from an all-zero state gives all-zero outputs and leaves the state all zero. |
| Shipped.ShippedOneSection | fft/filter.c:192-200 | The shipped filter is one section with b = (18287, 18287, 0) and a = (-32197, 0). |
| Shipped.SecondWordZero | fft/filter.c:192-200 | Because b2 = 0 and a2 = 0, the second delay word is 0 after every call, whatever the input and the state. |
| Shipped.NoOverflow | fft/filter.c:130-146 | Take a delay line whose first word is within [-2^30, 2^30] and whose second word is 0. Then the call is `ExactCall`: the accumulator y = m + s0, the `<< 1` and the `+=` inside `filter_MultA` of y by a1, its result p = ⌊a1·y/2^15⌋, and the `+=` and `-=` of the new first delay word all fit in 32 bits. Here m = ⌊b·v/2^21⌋. The call returns y and the delay line [m - p, 0] with no wrap at all, and the delay line stays within those bounds. `filter_MultB` never wraps, by `MultBExact`. |
| Shipped.RunStaysBounded | fft/filter.c:118-152 | Any stream of samples keeps such a delay line within those bounds. |
| Shipped.NeverWrapsFromInit | fft/filter.c:192-200 | After any stream of samples from the initialised state, the delay line is bounded, and the next call is `ExactCall` whatever its sample. So no operation of any call in any stream wraps. |
| Shipped.CallFrom | fft/filter.c:118-152 | Given the floor quotients of one shipped call, its output sample and new delay line. |
| Shipped.RunTwo | fft/filter.c:118-152 | Two calls in a row carry the state from the first to the second. |
| Shipped.ImpulseResponse | fft/filter.c:192-200 | The unit impulse 32767, 0 from the initialised state gives outputs 142 and 283. The first delay word ends at 18238712. |

## Left out

- `filter_CreateState` and `filter_DisposeState` (fft/filter.c:88-103) are `malloc`/`free` plumbing and are left out. The state is a sequence the caller supplies. Its length of 2·N is a precondition (`Fits`), as the kernel itself never checks it.
- `fft/filter.h` holds only prototypes and the state typedef, with no logic. `nidfdtyp.h` is not part of this model beyond `I16`/`I32` being 16- and 32-bit signed integers.
- The Saturation/Nearest quantizers of the coefficients and the input (fft/filter.c:13-29) happen upstream, when the filter is designed. This code does not perform them.
- C gives signed overflow and left shifts of negative values undefined behaviour. The model uses two's-complement wrap-around for them, as the declared Wrap mode states.
- FixedPoint.Asr: in C, `>>` of a negative signed value is implementation-defined. The model assumes the arithmetic (floor) shift that the generated code relies on. This covers fft/filter.c:149, 166, 167, 183 and 184, which see negative operands whenever the accumulator or a partial product is negative.
- The declarations of the coefficient tables at fft/filter.c:76-77 have no initialiser. The values come from the definitions at fft/filter.c:192-200, which are what the model uses.
- Approximate linearity under scaling is a numeric tendency, not a contract of the code.
- Outputs of the unit impulse after the second sample are not stated.
- Biquad.Section is written with `WideB`/`WideA`, the wide-multiply forms of the two multiplies, rather than with `MultB`/`MultA`. `MultBExact` and `MultAExact` prove these equal for every input, and `SectionInPlace` uses the split multiplies themselves.
- Determinism and independence of instances are not stated as lemmas. They follow from every operation being a pure function of its arguments.
