# sample_rate_converter in Dafny

A model of the three sample-rate converters in `include/sample_rate_converter.hpp`:

- **SrcLinear** (`LinearSrc`, `linear.dfy`) interpolates linearly in 64-bit fixed point.
  - The output clock is a whole count `T` plus a fraction `Tf` scaled by `2^accuracy`.
  - Each output advances the clock by the C++ quotient `(inRate << accuracy) / outRate`. `init` splits that quotient into `dT` and `dTf`.
  - Each output blends the last consumed sample with the next one, then shifts right by `accuracy` (a floor shift).
- **SrcLagrange** (`LagrangeSrc`, `lagrange.dfy`) interpolates with a Lagrange polynomial of odd order through the last `order + 1` input samples.
  - Those samples are held in a ring buffer.
  - The polynomial is evaluated at `half + frac(T)`.
- **SrcFir** (`FirSrc`, `fir.dfy`) filters with an FIR filter of `oversampling * mul` taps.
  - The filter is symmetric, so only its first half is stored.
  - A delay line holds the last `mul` samples, newest first.
  - Each output sums the taps spaced `oversampling` apart, starting from the offset nearest to the clock's fractional time.
- **Shared clock** (`PhaseClock`, `phase.dfy`): Lagrange and FIR share the same floating-point clock and the same consume/emit loop.
  - Time `T` grows by `inRate / outRate` per output.
  - `inT` counts the consumed samples.
  - At the end of every `process` call, both counters drop by a whole number of samples.
  - The loop is written once, as `PhaseClock.Run<H>`, generic in the history `H`. For Lagrange, `H` is the ring buffer; for FIR, it is the filter bank.
- **Numeric helpers** (`Numeric`, `numeric.dfy`):
  - powers of two;
  - C++ integer division and `(int)` conversion, both of which truncate toward zero;
  - the clamp-and-convert store of an interpolated value into the element type `T`. `T` is modelled as an integer range `[lo, hi]`.

Each `process` is a method that mirrors the source's loops. Each is proved equal to a recursive reference semantics (`Run`). The properties are stated about that semantics:
- **Accounting:** no input is skipped or replayed.
- **Ratio fidelity:** the output count tracks the step the clock actually takes.
  - For Lagrange and FIR this step is the exact ratio `inRate / outRate`.
  - For SrcLinear it is `Quotient / 2^accuracy`, where `Quotient` is the truncated `(inRate << accuracy) / outRate`. This falls short of the exact ratio by less than `2^-accuracy`, so the output count follows `2^accuracy / Quotient` per input sample and drifts away from `outRate / inRate` as the stream grows.
- **Streaming equivalence:** converting `a` then `b` in two calls equals converting `a + b` in one call.
- **Range:** every output stays in the range of `T`.
- **Interpolation:** the Lagrange polynomial passes through its samples.
- **FIR indexing:** FIR tap indices stay inside the half table and the delay line, exactly when the parity test of `init` passes.

The header documents its edge cases only briefly. `init` returns "true if successful, else false" (line 289), and SrcLinear's output "has a delay of 1 sample" (line 10). What the code does at those edges:
- **Zero output rate.**
  - SrcLinear divides by zero (line 36).
  - SrcLagrange returns true when `inRate > 0`, because the double ratio is +infinity (line 137).
  - SrcFir returns false only when oversampling and `mul` are both odd (lines 292-293). Otherwise it returns true whatever the rates (line 331).

  The corrected `Init` functions fail on a zero rate. The behaviour as written is modelled under Findings.
- **Identity ratio.** With equal rates SrcLinear outputs its input delayed by one sample, as the class comment says. `LinearSrc.IdentityRatio` proves this.
- **Carry rules differ.** At the end of a call, SrcLinear moves both integer counters back by the smaller of the two (lines 68-76). Lagrange and FIR move them back by `inT` or by `(int)T` (lines 164-170 and 352-358). Both rules keep the distance between the counters.

## Model

| member | source | states |
|---|---|---|
| Numeric.TruncDiv | include/sample_rate_converter.hpp:36 | the quotient truncates toward zero: the remainder takes the dividend's sign and is smaller than the divisor |
| Numeric.TruncDivPositive | include/sample_rate_converter.hpp:36-44 | the C++ quotient is positive exactly when the exact ratio is at least one |
| Numeric.Trunc | include/sample_rate_converter.hpp:159 | `(int)x` lies within one of x, on the side of zero |
| Numeric.Saturate | include/sample_rate_converter.hpp:194-201 | the stored value always lies in T's range; in range it is the truncated value; above or below the range it is the bound |
| Numeric.Clamp | include/sample_rate_converter.hpp:194-201 | storing an integral value clamps it to T's range |
| Numeric.SaturateKeepsInRange | include/sample_rate_converter.hpp:379-385 | an in-range integral value is stored unchanged |
| Numeric.Pow2AtIntBoundary | include/sample_rate_converter.hpp:35 | 2^30 fits in a 32-bit int and every 2^n with n >= 31 does not |
| LinearSrc.Init | include/sample_rate_converter.hpp:34-45 | a zero output rate leaves the state unchanged and fails; otherwise dT * 2^accuracy + dTf is the C++ quotient, with 0 <= dTf <= mask, and counters, fraction and previous sample are reset; success holds exactly when the exact ratio scaled by 2^accuracy is at least one, and success yields a consistent state |
| LinearSrc.Advance | include/sample_rate_converter.hpp:84-86 | one emission moves the fixed-point clock by exactly one step; the fraction stays below 2^accuracy and carries into T exactly when it overflows |
| LinearSrc.Blend | include/sample_rate_converter.hpp:80 | the output lies between the previous and the current sample, and equals the previous sample at fraction zero |
| LinearSrc.ScaledFraction | include/sample_rate_converter.hpp:80 | a difference scaled by a fraction below one and floor-shifted lies between zero and that difference |
| LinearSrc.Carry | include/sample_rate_converter.hpp:68-76 | the carry keeps inT - T, leaves both non-negative, and zeroes one of them |
| LinearSrc.LagConsume | include/sample_rate_converter.hpp:66-67 | consuming a sample adds 2^accuracy to the input lead |
| LinearSrc.LagAdvance | include/sample_rate_converter.hpp:84-86 | emitting takes one fixed-point step off the input lead |
| LinearSrc.LagCarry | include/sample_rate_converter.hpp:68-76 | the carry leaves the input lead unchanged |
| LinearSrc.LagBounds | include/sample_rate_converter.hpp:65-86 | in a consistent state the input lead lies in (-step, 2^accuracy - Tf], with equality whenever an emission is due |
| LinearSrc.EmitShrinksBudget | include/sample_rate_converter.hpp:64-87 | an emission is due only while the lead is positive, and each emission shrinks it, so the emit loop ends |
| LinearSrc.Run | include/sample_rate_converter.hpp:61-99 | a call keeps accuracy and step, ends with a fraction below one, and leaves the last input as the previous sample |
| LinearSrc.RunAccounts | include/sample_rate_converter.hpp:61-99 | the lead grows by 2^accuracy per consumed sample and shrinks by one step per output, so every input is consumed exactly once |
| LinearSrc.AdvanceKeepsValid | include/sample_rate_converter.hpp:80-86 | an emission keeps a consistent state consistent |
| LinearSrc.RunKeepsValid | include/sample_rate_converter.hpp:61-99 | a call keeps a consistent state consistent |
| LinearSrc.Process | include/sample_rate_converter.hpp:61-99 | for any state with a positive step the loops end and compute the reference semantics; a consistent state stays consistent; the last input becomes the previous sample |
| LinearSrc.OutputsStayInRange | include/sample_rate_converter.hpp:80-81 | if all inputs lie in T's range, so does every output: the cast to T never overflows |
| LinearSrc.StepBracketsRatio | include/sample_rate_converter.hpp:34-40 | after a successful init, step times the output rate is at most the input rate times 2^accuracy and less than one output rate above it: the step is the exact ratio rounded down to a multiple of 2^-accuracy |
| LinearSrc.RatioFidelity | include/sample_rate_converter.hpp:61-99 | the number of outputs times the step lies within one step plus one sample of the input length times 2^accuracy |
| LinearSrc.RunIgnoresShift | include/sample_rate_converter.hpp:68-76 | only the difference of the two counters matters to a call |
| LinearSrc.RunReadsSuffix | include/sample_rate_converter.hpp:61-66 | a call reads only the input from its current position on |
| LinearSrc.StreamingFrom | include/sample_rate_converter.hpp:61-99 | carrying over from a run ending at input position s, continuing with b gives the same outputs and state as converting the concatenation from s |
| LinearSrc.StreamingEquivalence | include/sample_rate_converter.hpp:61-99 | converting a then b in two calls gives the same outputs and final state as converting a + b in one call |
| LinearSrc.UnitStepRun | include/sample_rate_converter.hpp:61-99 | with a unit step, every output is the last consumed sample: the input delayed by one |
| LinearSrc.IdentityRatio | include/sample_rate_converter.hpp:34-99 | with equal rates a fresh converter succeeds and outputs its input delayed by exactly one sample, for every accuracy |
| LinearSrc.MaskAsWritten | include/sample_rate_converter.hpp:35 | the int shift `1 << accuracy` is defined exactly for accuracy up to 30, and there it gives the intended mask 2^accuracy - 1 |
| LinearSrc.InitAsWritten | include/sample_rate_converter.hpp:34-45 | init as written has undefined behaviour exactly when accuracy is 31 or more or the output rate is zero; everywhere else it agrees with the corrected Init |
| LinearSrc.MaskOverflowAsWritten | include/sample_rate_converter.hpp:35 | accuracies 31 and 32, which the command line accepts, overflow the int shift, so init has no defined result for any rates |
| LinearSrc.DivisionByZeroAsWritten | include/sample_rate_converter.hpp:36 | a zero output rate reaches the division by zero; the corrected Init fails instead |
| PhaseClock.NeedsInputTruncated | include/sample_rate_converter.hpp:159 | on a non-negative time, Lagrange's test `inT <= (int)T` agrees with FIR's test `inT <= T` |
| PhaseClock.Frac | include/sample_rate_converter.hpp:175 | `m_T - (int)m_T` is T minus its floor, a fraction in [0, 1) |
| PhaseClock.Consume | include/sample_rate_converter.hpp:160 | consuming a sample raises inT - T by one and keeps a consistent clock consistent whenever input was needed |
| PhaseClock.Advance | include/sample_rate_converter.hpp:205 | an emission lowers inT - T by one step and keeps a consistent clock consistent whenever no input was needed |
| PhaseClock.ShiftKeepsFrac | include/sample_rate_converter.hpp:164-170 | moving time back by whole samples keeps its fraction |
| PhaseClock.Carry | include/sample_rate_converter.hpp:352-358 | the carry keeps inT - T and the fraction of T, leaves both non-negative, and zeroes inT or (int)T |
| PhaseClock.EmitShrinksBudget | include/sample_rate_converter.hpp:342-390 | while no input is needed each emission shrinks the remaining budget, so the emit loop ends |
| PhaseClock.Run | include/sample_rate_converter.hpp:339-390 | a call keeps the step and a non-negative time |
| PhaseClock.StepsAreProduct | include/sample_rate_converter.hpp:389 | n steps of d advance time by n * d |
| PhaseClock.RunAccounts | include/sample_rate_converter.hpp:339-390 | inT - T grows by one per consumed sample and shrinks by one step per output |
| PhaseClock.RunKeepsValid | include/sample_rate_converter.hpp:155-206 | a call keeps a consistent clock consistent |
| PhaseClock.RatioFidelity | include/sample_rate_converter.hpp:155-206 | the time covered by a call's outputs lies within one step plus one sample of its input length |
| PhaseClock.RunIgnoresShift | include/sample_rate_converter.hpp:164-170 | moving both counters back by whole samples does not change a call |
| PhaseClock.RunReadsSuffix | include/sample_rate_converter.hpp:155-161 | a call reads only the input from its current position on |
| PhaseClock.StreamingFrom | include/sample_rate_converter.hpp:339-390 | continuing after a carry equals converting the concatenated input |
| PhaseClock.StreamingEquivalence | include/sample_rate_converter.hpp:339-390 | converting a then b in two calls gives the same outputs and final state as converting a + b in one call |
| LagrangeSrc.RingIndex | include/sample_rate_converter.hpp:188-191 | the walk's index wraps inside the buffer |
| LagrangeSrc.WindowAt | include/sample_rate_converter.hpp:188-191 | the k-th window entry is the buffer slot k places after the write position |
| LagrangeSrc.Push | include/sample_rate_converter.hpp:161-162 | storing a sample keeps the buffer size |
| LagrangeSrc.PushShiftsWindow | include/sample_rate_converter.hpp:161-162 | storing a sample drops the oldest sample from the window and appends the new one |
| LagrangeSrc.PushAllKeepsLatest | include/sample_rate_converter.hpp:159-173 | after any run of stores the window holds the latest order + 1 samples, oldest first |
| LagrangeSrc.CoefficientStep | include/sample_rate_converter.hpp:181 | one pass of the inner loop multiplies by (D - k) / (n - k) and yields the next partial product |
| LagrangeSrc.FactorAtOwnNode | include/sample_rate_converter.hpp:181 | at D = n each factor is one |
| LagrangeSrc.BasisAtOwnNode | include/sample_rate_converter.hpp:177-184 | basis polynomial n is one at node n |
| LagrangeSrc.BasisAtOtherNode | include/sample_rate_converter.hpp:177-184 | basis polynomial n is zero at every other node below the product's extent |
| LagrangeSrc.Coeffs | include/sample_rate_converter.hpp:177-184 | there is one coefficient per node |
| LagrangeSrc.SumAtNode | include/sample_rate_converter.hpp:186-192 | at node j the weighted sum picks out sample j |
| LagrangeSrc.InterpolatesSamples | include/sample_rate_converter.hpp:175-192 | the interpolating polynomial passes through every sample of the window |
| LagrangeSrc.Output | include/sample_rate_converter.hpp:175-201 | every output lies in T's range |
| LagrangeSrc.OutputAtWholeTime | include/sample_rate_converter.hpp:175-201 | at a whole time the output is the middle window sample, clamped |
| LagrangeSrc.BasisCoefficient | include/sample_rate_converter.hpp:178-183 | the inner loop computes the basis polynomial of node n at D |
| LagrangeSrc.Coefficients | include/sample_rate_converter.hpp:177-184 | the outer loop fills all order + 1 basis values |
| LagrangeSrc.WeightedSum | include/sample_rate_converter.hpp:186-192 | the ring walk multiplies coefficient k by the k-th oldest sample and sums over the whole buffer |
| LagrangeSrc.EmitSample | include/sample_rate_converter.hpp:175-201 | the emission step computes Output |
| LagrangeSrc.Resize | include/sample_rate_converter.hpp:131-132 | resizing keeps the old prefix and fills new slots with zero |
| LagrangeSrc.Init | include/sample_rate_converter.hpp:127-138 | even orders and zero output rates leave the state unchanged and fail; otherwise the history has order + 1 slots, the write position is order, and the clock restarts with the exact ratio; success holds exactly when the order is odd, the output rate non-zero and the ratio positive, and success yields a consistent state |
| LagrangeSrc.Process | include/sample_rate_converter.hpp:155-206 | the loops compute the shared reference semantics with Lagrange's history and output; the state stays consistent; every output is in T's range |
| LagrangeSrc.RunKeepsRingSize | include/sample_rate_converter.hpp:159-173 | a call keeps the history size |
| LagrangeSrc.RunKeepsValid | include/sample_rate_converter.hpp:155-206 | a call keeps a consistent converter consistent |
| LagrangeSrc.WritePosAsWritten | include/sample_rate_converter.hpp:161-162 | after n stores from init as written, the write position is (order + n) mod (order + 1) |
| LagrangeSrc.AcceptsAsWritten | include/sample_rate_converter.hpp:128-137 | init as written succeeds exactly when the order is odd and either the input rate is positive and the output rate non-negative, or both rates are negative |
| LagrangeSrc.FirstWriteOutOfRangeAsWritten | include/sample_rate_converter.hpp:131-133 | the write position ranges over 0..order, yet the buffer as allocated has only order slots, so the very first store is out of bounds |
| LagrangeSrc.CounterNeverExitsAsWritten | include/sample_rate_converter.hpp:177-190 | an 8-bit counter always satisfies `<= order` exactly when the order is 255, so those loops never end |
| LagrangeSrc.ZeroRateAcceptedAsWritten | include/sample_rate_converter.hpp:134-137 | with a positive input rate, a zero output rate passes the source's checks, while the corrected Init fails |
| LagrangeSrc.InitAgreesAsWritten | include/sample_rate_converter.hpp:127-138 | for a non-zero output rate the corrected Init succeeds exactly when the source's checks pass |
| FirSrc.TableIndex | include/sample_rate_converter.hpp:372-376 | every tap of the full filter is read from inside the half table |
| FirSrc.KernelSymmetric | include/sample_rate_converter.hpp:299-318 | the full filter is symmetric: tap m equals tap N - 1 - m |
| FirSrc.MirrorInRangeIffEven | include/sample_rate_converter.hpp:299 | mirrored reads of the second half stay inside a table of N / 2 entries exactly when N is even |
| FirSrc.ProductParity | include/sample_rate_converter.hpp:292 | a product is even exactly when one of its factors is |
| FirSrc.ParityTestGuardsMirror | include/sample_rate_converter.hpp:292-299 | for positive factors, the parity test passes exactly when the mirrored reads stay inside the table |
| FirSrc.TapCountIff | include/sample_rate_converter.hpp:372-376 | tap i exists exactly when shift + i * os <= N - 1 |
| FirSrc.TapCountBound | include/sample_rate_converter.hpp:372-376 | an output uses at most mul samples, and exactly mul when the offset is below os |
| FirSrc.TapPosIsProduct | include/sample_rate_converter.hpp:372 | the i-th tap position is shift + i * os |
| FirSrc.TapInRange | include/sample_rate_converter.hpp:372-376 | every tap used lies inside the filter, and its sample inside the delay line |
| FirSrc.SilenceIn | include/sample_rate_converter.hpp:369-376 | a silent delay line gives a silent output |
| FirSrc.Offset | include/sample_rate_converter.hpp:364 | the rounded starting offset lies in [0, os] |
| FirSrc.Output | include/sample_rate_converter.hpp:364-385 | every output lies in T's range |
| FirSrc.TapStep | include/sample_rate_converter.hpp:372-376 | a position inside the filter is a tap in use, and the next tap is os further on |
| FirSrc.ReadStep | include/sample_rate_converter.hpp:372-376 | each loop reads tap i's kernel value, directly in the stored half and mirrored beyond it |
| FirSrc.TapsExhausted | include/sample_rate_converter.hpp:375 | the loops stop exactly at the tap count |
| FirSrc.StoredHalf | include/sample_rate_converter.hpp:372-373 | the first loop sums the taps of the stored half and stops at the first position past it |
| FirSrc.MirroredHalf | include/sample_rate_converter.hpp:375-376 | the second loop adds the remaining taps by reading the table downward |
| FirSrc.FilterSample | include/sample_rate_converter.hpp:369-376 | the two loops compute the filter sum over exactly the taps inside the filter |
| FirSrc.ShiftIn | include/sample_rate_converter.hpp:347-350 | storing a sample keeps the oversampling, the table and the line length |
| FirSrc.DelayLine | include/sample_rate_converter.hpp:347-350 | the top-down copy loop moves the line down one place and puts the new sample in front |
| FirSrc.PushAllNewestFirst | include/sample_rate_converter.hpp:343-361 | after any run of stores the line holds the latest mul samples, newest first |
| FirSrc.Init | include/sample_rate_converter.hpp:291-332 | refused parameters leave the state unchanged and fail; otherwise the table holds the first os * mul / 2 designed taps, the line is cleared and the clock restarts; success means accepted parameters and a positive ratio, and yields a consistent state |
| FirSrc.InitBuildsFilter | include/sample_rate_converter.hpp:291-332 | a successful init builds N = os * mul taps whose mirrored reads stay in the table, with the exact rate ratio as the step |
| FirSrc.Process | include/sample_rate_converter.hpp:339-390 | the loops compute the shared reference semantics with the FIR delay line and output; the state stays consistent; every output is in T's range |
| FirSrc.RunKeepsShape | include/sample_rate_converter.hpp:343-361 | a call keeps the oversampling, the table and the line length |
| FirSrc.RunKeepsValid | include/sample_rate_converter.hpp:339-390 | a call keeps a consistent converter consistent |
| FirSrc.AcceptsAsWritten | include/sample_rate_converter.hpp:292-293 | the parity test passes exactly when os * mul is even |
| FirSrc.TableSizeAsWritten | include/sample_rate_converter.hpp:299 | the requested table size is os * mul halved and rounded down; it is negative exactly when os * mul is, and exact when os * mul is even |
| FirSrc.EmptyDelayLineAsWritten | include/sample_rate_converter.hpp:292-350 | mul = 0 passes the parity test with an empty delay line, which the first store then writes |
| FirSrc.NegativeOversamplingAsWritten | include/sample_rate_converter.hpp:292-299 | a negative even oversampling passes the test and asks for a negative table size |
| FirSrc.StallAsWritten | include/sample_rate_converter.hpp:328-343 | with a step at or below zero, a clock that owes an output never again needs input, so the emit loop never ends |
| FirSrc.ZeroRateStallsAsWritten | include/sample_rate_converter.hpp:328-331 | a zero input rate gives a zero step that owes an output after one sample, while the corrected Init fails |

## Left out

- Floating point: the double virtual time and the interpolation arithmetic of Lagrange and FIR are exact reals. `(int)` conversion is modelled as truncation toward zero. Rounding error and the approximate identity of Lagrange and FIR for equal rates are not modelled.
- Filter design (lines 306-323): the windowed sinc, the Blackman window `get_window_blackman` (lines 245-253) and the normalisation use sin and cos. The coefficient table is a parameter of `FirSrc.Init` (`design`).
- Integer widths: `os * mul` and the `int` counters of Lagrange and FIR are unbounded. Only the overflows listed under Findings are modelled. `accuracy` is a `nat`; the range accepted by the command-line driver is not enforced.
- The element type `T` is an integer range. Floating-point element types are not modelled.
- The constructors only forward to `init`. Output buffers (`out.push_back`) are returned sequences, and the returned count is their length.
- The command-line driver and the example program (file I/O, argument parsing, the interactive demo) are not part of this model.
- LagrangeSrc.InterpolatesSamples: the model does not prove that the basis polynomials sum to one away from the nodes (partition of unity). Only interpolation at the nodes is proved.
- LinearSrc.Init, LagrangeSrc.Init, FirSrc.Init: these are the corrected versions listed under Findings. They refuse inputs that the source accepts or crashes on. The source's own acceptance is modelled separately: `LinearSrc.InitAsWritten`, `LagrangeSrc.AcceptsAsWritten` and `FirSrc.AcceptsAsWritten`.
- LinearSrc.RatioFidelity: bounds the output count by the truncated step `Quotient`, not by `outRate / inRate`. `LinearSrc.StepBracketsRatio` bounds that truncation per output, but the drift it causes over a whole stream has no closed bound in the model.
- PhaseClock.RatioFidelity: stated with the recursive sum `Steps`. `StepsAreProduct` equates it with `|out| * dT`.

## Findings

| source | as written | input that shows it | evidently intended | confidence | as-written member | corrected member |
|---|---|---|---|---|---|---|
| include/sample_rate_converter.hpp:131-133 | the history and coefficient buffers get `order` slots, but the write position starts at `order` and the loops index 0..order | any odd order, e.g. 3: the first `m_pF[3]` store is out of bounds | buffers of `order + 1` slots | high, not executed | LagrangeSrc.FirstWriteOutOfRangeAsWritten | LagrangeSrc.Init |
| include/sample_rate_converter.hpp:35 | `(1 << accuracy) - 1` shifts a 32-bit int | accuracy 31 or 32 | a 64-bit mask `(1LL << accuracy) - 1` | high, not executed | LinearSrc.MaskOverflowAsWritten | LinearSrc.Init |
| include/sample_rate_converter.hpp:36 | divides by outRate unchecked | outRate = 0 | init returns false | high, not executed | LinearSrc.DivisionByZeroAsWritten | LinearSrc.Init |
| include/sample_rate_converter.hpp:134-137 | an infinite ratio passes `m_dT > 0.0` | inRate = 1, outRate = 0, order 1 | init returns false | high, not executed | LagrangeSrc.ZeroRateAcceptedAsWritten | LagrangeSrc.Init |
| include/sample_rate_converter.hpp:177-190 | the loop counters are `unsigned char` and tested against `<= order` | order 255 | loops that end after order + 1 passes | high, not executed | LagrangeSrc.CounterNeverExitsAsWritten | LagrangeSrc.EmitSample |
| include/sample_rate_converter.hpp:292-350 | only both-odd factors are refused | mul = 0 (empty delay line written at index 0), or oversampling = -2 (negative table size) | init refuses mul = 0 and oversampling < 1 | high, not executed | FirSrc.EmptyDelayLineAsWritten | FirSrc.Init |
| include/sample_rate_converter.hpp:328-331 | returns true whatever the rate ratio | inRate = 0, outRate = 1: after one sample `process` emits forever | init fails unless the ratio is positive | high, not executed | FirSrc.StallAsWritten | FirSrc.Init |
