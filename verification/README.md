# RhythmHaptics core, modelled in Dafny

RhythmHaptics plays a fractal haptic rhythm. Pressing "Start Rhythm" builds a
fresh fractal series with `generateFractalSignal`. The series is mapped
affinely onto gap durations in [0.2, 0.6] seconds. A 10 ms repeating timer
then fires one haptic pulse whenever the elapsed time reaches the sum of
the gaps before the next pulse.

The model has four modules:

- `IntervalMap` (`intervals.dfy`): the affine map `0.2 + v * 0.4` and its inverse.
- `Scheduler` (`scheduler.dfy`): the timer closure as a pure step function
  `Step(state, intervals, elapsed)`, which returns the new
  `(cursor, active)` state, whether a pulse fired and whether the timer was
  invalidated. A run is a fold of `Step` over a sequence of elapsed
  samples, and it records every pulse as `(index, elapsed)`. The module
  also holds the start action `PlayHapticRhythm` and the view-level tick
  `TimerTick`, which clears the timer slot.
- `Normalization` (`normalize.dfy`): min–max normalization, including the
  `?? 0` / `?? 1` fallbacks for an empty series.
- `Spectrum` (`spectrum.dfy`): the two loops that fill the `reals`/`imags`
  bins. The conjugate-mirror loop is an imperative method over arrays with
  loop invariants. The module also holds the overall shape of
  `generateFractalSignal`.

Real numbers stand in for `Double`. Arithmetic is exact and rounding is
ignored.

## Notes on the code's behaviour

- Normalization divides by `max - min` without a guard. The model therefore
  requires a series that is empty or not constant (`Normalizable`).
- Every sample equal to the minimum maps to 0, and every sample equal to the
  maximum maps to 1.
- The first loop stores the coefficient for frequency `i+1` in bin `i`, for
  `i` in `0 ..< n/2`. The first loop never writes bin `n/2`, so the mirror
  loop copies a zero into it. For odd `n` the bin after it also receives a
  zero.
- A length of 1 crashes the mirror loop, which reads index 1 of a
  one-element array. The model excludes that length with a precondition.
- Starting a run invalidates the previous timer (`timer?.invalidate()`).
  The model returns that previous closure with its `active` flag cleared,
  so later ticks of it fire nothing.

## Model

| member | source | states |
|---|---|---|
| IntervalMap.ScaleIntervals | RhythmHaptics/ContentView.swift:30 | one gap per value; a value lies in [0,1] exactly when its gap lies in [0.2,0.6]; order and equality of values are preserved in both directions |
| IntervalMap.ScaleRoundTrip | RhythmHaptics/ContentView.swift:30 | the affine map is invertible: unscaling the gaps gives back the raw series |
| IntervalMap.ScaleNormalizedIsPositive | RhythmHaptics/ContentView.swift:30 | a normalized series yields gaps in [0.2,0.6], all strictly positive |
| Scheduler.Step | RhythmHaptics/ContentView.swift:35-50 | a tick fires at most one pulse and advances the cursor by one exactly when it fires; it fires iff the timer is live, the cursor is in range and elapsed has reached the prefix sum; it stops the timer iff a live tick finds the cursor at the end; the cursor never exceeds the gap count |
| Scheduler.Sum | RhythmHaptics/ContentView.swift:39 | the left-fold sum of `reduce(0, +)`; a sum of non-negative gaps is non-negative |
| Scheduler.ExpectedTime | RhythmHaptics/ContentView.swift:39 | the instant pulse i is due, the sum of the gaps before it: 0 for the first pulse, never negative when those gaps are non-negative |
| Scheduler.DueTimeWithinGapBounds | RhythmHaptics/ContentView.swift:30-39 | with every gap in [lo,hi], pulse i is due between lo*i and hi*i (between 0.2*i and 0.6*i for scaled gaps) |
| Scheduler.Run | RhythmHaptics/ContentView.swift:35-50 | the closure folded over a sequence of ticks: at most one pulse per tick, the cursor only moves forward, and a stopped timer never becomes live again |
| Scheduler.EarlyTickIsNoOp | RhythmHaptics/ContentView.swift:38-44 | a live tick with the cursor in range but elapsed below the cursor's instant changes nothing and fires nothing |
| Scheduler.FirstPulseAtZero | RhythmHaptics/ContentView.swift:38-44 | from the start state, ticks with negative elapsed fire nothing and leave the state unchanged; the first tick with elapsed >= 0 fires exactly one pulse, index 0 (its instant is the empty prefix sum) |
| Scheduler.RunFiresInOrder | RhythmHaptics/ContentView.swift:38-44 | over any sequence of ticks the fired indices are exactly start cursor .. final cursor - 1, consecutive and increasing, each once, at most one per tick, and the cursor stays within the gap count |
| Scheduler.RunNeverFiresEarly | RhythmHaptics/ContentView.swift:39-43 | every fired pulse has an index in range and fired on a tick whose elapsed time had reached the sum of the gaps before it |
| Scheduler.StoppedRunIsInert | RhythmHaptics/ContentView.swift:45-49 | once the timer is invalidated, further ticks fire nothing and change nothing |
| Scheduler.StopsOnlyAtEnd | RhythmHaptics/ContentView.swift:38-48 | a live run becomes inactive only after its cursor reached the gap count |
| Scheduler.CompletedRunFiresAll | RhythmHaptics/ContentView.swift:38-48 | a run from the start state that has stopped its timer fired exactly indices 0 .. count-1, in order |
| Scheduler.PrefixSumBounded | RhythmHaptics/ContentView.swift:39 | with non-negative gaps every pulse's instant lies between 0 and the total duration |
| Scheduler.LateTicksComplete | RhythmHaptics/ContentView.swift:38-48 | overdue pulses catch up one per tick: with every tick past the total duration and more ticks than remaining pulses, the run fires everything and stops |
| Scheduler.LastGapIrrelevant | RhythmHaptics/ContentView.swift:39 | two gap sequences differing only in their last gap drive identical runs |
| Scheduler.PlayHapticRhythm | RhythmHaptics/ContentView.swift:24-35 | starting schedules a new timer with cursor 0, live, whose gaps are the scaled series (recoverable by unscaling); the previous timer, if any, is returned invalidated with its gaps and cursor kept |
| Scheduler.StartDiscardsPrevious | RhythmHaptics/ContentView.swift:26-35 | the started run does not depend on the previous timer, and the invalidated previous closure fires nothing and changes nothing on any later ticks |
| Scheduler.TimerTick | RhythmHaptics/ContentView.swift:35-50 | with no timer nothing happens; a live timer is cleared exactly when its cursor is at the end, firing nothing; a live in-range tick keeps the timer and its gaps, fires exactly when elapsed has reached the cursor's prefix sum, and advances the cursor by one exactly when it fires |
| Scheduler.TickAll | RhythmHaptics/ContentView.swift:35-50 | the view's timer slot driven over a sequence of ticks, with the slot cleared as at lines 47-48: at most one pulse per tick, and a remaining timer keeps the gaps it was scheduled with |
| Scheduler.NoTimerIsInert | RhythmHaptics/ContentView.swift:47-48 | once the timer slot is cleared, further ticks fire nothing and leave it cleared |
| Scheduler.TickAllMatchesRun | RhythmHaptics/ContentView.swift:35-50 | the view-level timer fires exactly the pulses of the closure's fold, and its slot is cleared exactly when the fold has stopped |
| Scheduler.PlayFiresLikeRun | RhythmHaptics/ContentView.swift:24-50 | after starting, the view's timer fires the fold's pulses over the scaled gaps: indices 0, 1, 2, ... in order, and all of them once the timer has cleared itself |
| Normalization.Min | RhythmHaptics/Shared/FractalSignalGenerator.swift:33 | the minimum is an element of the series and no element is smaller |
| Normalization.Max | RhythmHaptics/Shared/FractalSignalGenerator.swift:34 | the maximum is an element of the series and no element is larger |
| Normalization.MinOr | RhythmHaptics/Shared/FractalSignalGenerator.swift:33 | `min() ?? 0`: the fallback for an empty series, otherwise an element no other element is below |
| Normalization.MaxOr | RhythmHaptics/Shared/FractalSignalGenerator.swift:34 | `max() ?? 1`: the fallback for an empty series, otherwise an element no other element is above |
| Normalization.Normalize | RhythmHaptics/Shared/FractalSignalGenerator.swift:33-35 | same length; every value in [0,1]; a value is 0 exactly where the sample is the minimum and 1 exactly where it is the maximum |
| Normalization.UnitScale | RhythmHaptics/Shared/FractalSignalGenerator.swift:35 | rescaling a value of [lo,hi] onto [0,1] lands in [0,1], hitting 0 only at lo and 1 only at hi |
| Normalization.DivMonotone | RhythmHaptics/Shared/FractalSignalGenerator.swift:35 | division by the positive range preserves order in both directions |
| Normalization.NormalizePreservesOrder | RhythmHaptics/Shared/FractalSignalGenerator.swift:35 | s[a] <= s[b] iff the normalized values are in the same order |
| Normalization.NormalizePreservesEquality | RhythmHaptics/Shared/FractalSignalGenerator.swift:35 | two samples are equal iff their normalized values are equal |
| Normalization.NormalizeAttainsBounds | RhythmHaptics/Shared/FractalSignalGenerator.swift:33-35 | a non-empty normalized series contains both 0 and 1 |
| Normalization.NormalizeIdempotent | RhythmHaptics/Shared/FractalSignalGenerator.swift:33-35 | normalizing a normalized series is accepted and changes nothing |
| Spectrum.SpectrumBins | RhythmHaptics/Shared/FractalSignalGenerator.swift:7-22 | both arrays have n bins; bins below n/2 keep the first loop's coefficients; every bin matches the closed mirror formula; the spectrum is conjugate-symmetric for k in 1..n-1; bin n/2 is zero, and so is bin n/2+1 for odd n |
| Spectrum.MirrorIsConjugateSymmetric | RhythmHaptics/Shared/FractalSignalGenerator.swift:19-22 | the closed mirror formula is conjugate-symmetric, with a zero middle bin (two for odd n) |
| Spectrum.GenerateFractalSignal | RhythmHaptics/Shared/FractalSignalGenerator.swift:4-37 | bins and output all have `length` elements; every bin is what the mirror loop leaves, so the spectrum is conjugate-symmetric, keeps the first loop's coefficients and has its middle bin (two for odd length) at zero; the signal is exactly the min-max normalization of the time-domain series, lies in [0,1], contains 0 and 1 when non-empty, and orders its samples as that series does |

## Left out

- The timer, `Date()`, the 10 ms polling period and the haptic generator
  (`UIImpactFeedbackGenerator`, and `WKInterfaceDevice` in the watch app,
  whose tick logic is otherwise identical) are not modelled. Each tick
  takes its elapsed time as an input and reports a `fired` flag.
- The series generated inside `playHapticRhythm` is an input to
  `PlayHapticRhythm`. The source generates it from random phases, with
  length 128 and hurst 1.
- The spectral coefficients are not modelled. The source computes them
  with `pow`, `cos`, `sin` and `Double.random` (lines 13-17 of the
  generator), and the model takes them as arbitrary real inputs.
- The O(n²) inverse-DFT summation (lines 24-31) is not modelled. Its result
  is the `timeDomain` input of `GenerateFractalSignal`, and the model does
  not relate it to the bins.
- Floating-point rounding, NaN and infinities are not modelled. The model
  uses exact reals.
- Spectrum.SpectrumBins: it requires a length other than 1, because the
  source traps on an out-of-bounds read for that length. Its length is a
  `nat`, because the source's `[Double](repeating: 0, count: n)` also traps
  on a negative `Int` length.
- Spectrum.GenerateFractalSignal: its length is a `nat` and excludes 1, for
  the same two traps.
- Normalization.Normalize: it requires a non-constant series or an empty one.
  On a constant series the source divides by zero and produces NaN.
- The settings screens and `SettingsModel` are not modelled. They hold
  UI and persisted preferences and contain no scheduling logic.
- Micro-bursts, haptic styles and sound kinds are not modelled. Nothing in
  the modelled files implements them.
