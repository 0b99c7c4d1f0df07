# Hidden instability: a verified model of the CGM instability heuristics

This project models, in Dafny, the core of a tool that flags likely-unreliable stretches of
continuous glucose monitor (CGM) readings and computes range metrics that can exclude them.
It has three parts:

- **Instability heuristics** (`src/instability.py`). Each maps a series of readings sampled
  every `interval_min` minutes to a boolean mask of the same length. The jump/spike
  heuristic flags a reading that differs from the one before it by more than a threshold.
  The local-variance heuristic flags the right edge of every trailing window whose finite
  readings have a population variance above a threshold. The drift heuristic flags every
  window of a day (by default) that is monotonic, and every maximal run of low readings
  longer than eight hours (by default). The flatline heuristic flags every trailing window of
  identical finite readings. `instability_mask` ORs the four masks after passing each through
  a `pad` helper built on `np.resize`.
- **Range metrics** (`src/metrics.py`). TIR, TBR and TAR are each a count of used readings
  in, below or above the range, divided by the count of used readings. An index is used
  unless the optional mask excludes it.
- **Session policy** (`src/session.py`). This maps a device identifier to the maximum
  session length of its sensor: 10.5 days for a G7, 10 days for a G6, unknown otherwise.

A reading is `Finite(v)` with `v` an exact real in mg/dL, or `Missing`, which stands for
NaN. Every comparison with `Missing` is false, as it is with NaN in numpy. Masks are
`seq<bool>`. Errors the source raises become a `Result`:
- `EmptySeries` when `jump_spike_mask` reads `arr[0]` of an empty series. This also makes
  `instability_mask` fail on an empty series.
- `MaskLengthMismatch` for the metrics' `ValueError`.

The source fills the variance, drift and flatline masks with loops and slice assignments.
These are methods that allocate arrays and fill them with `for` loops and `forall`
statements. Each method returns the array's contents and is proved against a pointwise
specification predicate (`VarianceFlagged`, `DriftFlagged`, `FlatFlagged`). The drift
heuristic's two patterns are two methods that update the same array in turn, as the
source's two passes over `out` do. The jump
heuristic, the combinator's OR, the metrics and the session lookup are vectorised or pure
code, so they are functions.

Modules, one per file: `Glucose` (readings, windows, results), `JumpSpike`, `LocalVariance`,
`DriftWindow`, `DropoutFlatline`, `Combinator` (`instability_mask` and `pad`), `Metrics` and
`Session`.

Some behaviours of the code are not what the function names suggest:
- The variance is `np.nanvar`. That is the population variance (n in the denominator) of
  the window's finite readings, ignoring missing ones. It is not a sample variance that
  treats any missing reading as "not computable".
- A flat window has variance 0. It is never flagged when the threshold is at least 0. With
  a negative threshold every window holding a finite reading is flagged
  (`NegativeThresholdFlagsEveryWindow`).
- `pad` uses `np.resize`. That repeats a short mask cyclically; it does not pad with
  `false`. Every heuristic already returns a mask of the series length, so `pad` changes
  nothing (`PadIsIdentity`).
- `dropout_flatline_mask` has no rule that flags missing readings. A missing reading is
  never flagged by it (`MissingNeverFlagged`).
- The code has no jitter heuristic and no long-missing-run heuristic. Neither is modelled.
- The metrics' denominator counts every used index, missing readings included. So TIR,
  TBR and TAR sum to 1 exactly when no used reading is missing
  (`FractionsSumToOneIffNoneMissing`). When every used reading is missing, TIR is NaN but
  TBR and TAR are 0.

## Model

| member | source | states |
|---|---|---|
| `JumpSpike.JumpSpikeMask` | src/instability.py:40-46 | An empty series is an error. Otherwise the mask has the series length. For i ≥ 1, index i is flagged iff both readings are finite and their absolute difference is strictly above the threshold. A missing endpoint never flags. Index 0 is flagged only for a finite reading and a negative threshold, so never when the threshold is ≥ 0. |
| `JumpSpike.DiffPrepend` | src/instability.py:45 | `np.diff(arr, prepend=arr[0])` has the series length. Its first entry is 0 for a finite first reading and NaN otherwise. Each later entry is the difference of consecutive readings, NaN if either is missing. |
| `JumpSpike.TwoPointExample` | src/instability.py:45-46 | [100, 125] with the default threshold 20 gives [false, true]. |
| `LocalVariance.WindowPoints` | src/instability.py:25 | The window is max(1, ⌊window / interval⌋) points: at least 1, and when the window is at least one interval, exactly the largest k with k × interval ≤ window. |
| `LocalVariance.DefaultWindowIsSixPoints` | src/instability.py:25 | 30 minutes at 5-minute sampling gives a 6-point window. |
| `LocalVariance.NanVar` | src/instability.py:33-34 | The variance of a window's finite readings is never negative. |
| `LocalVariance.LocalVarianceMask` | src/instability.py:18-37 | The mask has the series length. Index i is flagged iff its trailing window fits in the series, holds a finite reading, and the variance of its finite readings is strictly above the threshold. Only the right edge is flagged, so no index before k−1 is flagged, and a series shorter than the window gets no flag. |
| `LocalVariance.ConstantHasZeroVariance` | src/instability.py:34 | Values that are all equal have population variance 0. |
| `LocalVariance.FlatWindowNeverFlagged` | src/instability.py:31-37 | A window whose finite readings all have one value is never flagged when the threshold is ≥ 0. |
| `LocalVariance.NegativeThresholdFlagsEveryWindow` | src/instability.py:37 | With a negative threshold, every full window holding a finite reading is flagged. |
| `DriftWindow.HourPoints` | src/instability.py:74-76 | A duration in hours becomes max(2, hours × ⌊60 / interval⌋) points: never fewer than 2 or than that product, and equal to the product whenever the result exceeds 2. |
| `DriftWindow.DefaultWindowsInPoints` | src/instability.py:74-76 | At 5-minute sampling, 24 hours is 288 points and 8 hours is 96 points. |
| `DriftWindow.DriftWindowMask` | src/instability.py:49-105 | The mask has the series length. Index j is flagged iff it lies in a trailing `kDrift`-window that is all finite and non-decreasing or non-increasing, or in a maximal run of finite readings below the low threshold that is longer than `kLow`. This covers both soundness and completeness of the two rules. |
| `DriftWindow.DriftWindowMaskInPoints` | src/instability.py:78-105 | With both durations in points, the mask has the series length and is exactly the union of the monotonic-window and long-low-run patterns. |
| `DriftWindow.MarkMonotonicWindows` | src/instability.py:80-88 | Starting from an all-false array, afterwards entry j is set iff j lies in some all-finite, non-decreasing or non-increasing `kDrift`-window. |
| `DriftWindow.MarkLongLowRuns` | src/instability.py:90-103 | Afterwards entry j is set iff it was set before or j lies in a maximal run of finite below-threshold readings longer than `kLow`. No other entry changes. |
| `DriftWindow.LowRunMembership` | src/instability.py:91-103 | Inside a maximal low run, an index is in a long low run iff this run is strictly longer than `kLow`. Runs of length ≤ `kLow` are not flagged. |
| `DriftWindow.LowRunUnique` | src/instability.py:93-103 | Two maximal low runs that share an index are the same run. |
| `DriftWindow.RisingSeriesFullyFlagged` | src/instability.py:81-88 | A series of at least `kDrift` finite, strictly increasing readings is flagged at every index by the monotonic rule. |
| `DriftWindow.ConstantWindowQualifies` | src/instability.py:84-88 | A window of identical finite readings counts as monotonic, so every index in it is flagged. |
| `DropoutFlatline.FlatlinePoints` | src/instability.py:114 | The window is max(2, ⌊window / interval⌋) points: never fewer than 2 or than the quotient, and equal to the quotient whenever the result exceeds 2. |
| `DropoutFlatline.DefaultWindowIsSixPoints` | src/instability.py:114 | 30 minutes at 5-minute sampling gives a 6-point flatline window. |
| `DropoutFlatline.MaxValue` | src/instability.py:121 | `nanmax` of a finite window is one of its readings and bounds all of them from above. |
| `DropoutFlatline.MinValue` | src/instability.py:121 | `nanmin` of a finite window is one of its readings and bounds all of them from below. |
| `DropoutFlatline.MaxEqualsMinIffConstant` | src/instability.py:121 | For a finite window, max == min iff every reading is identical. |
| `DropoutFlatline.DropoutFlatlineMask` | src/instability.py:108-123 | The mask has the series length. Index j is flagged iff it lies in a trailing k-window whose readings are all finite and identical. A series shorter than k gets no flag. |
| `DropoutFlatline.DropoutFlatlineMaskInPoints` | src/instability.py:115-123 | With the window in points, the mask has the series length and flags j iff j lies in a trailing k-window of identical finite readings. A series shorter than k gets no flag. |
| `DropoutFlatline.MissingNeverFlagged` | src/instability.py:119-122 | A missing reading is never flagged by this heuristic. |
| `DropoutFlatline.IdenticalReadingsFlagged` | src/instability.py:119-122 | k identical finite readings ending at i flag every index of that window. |
| `Combinator.Resize` | src/instability.py:159 | `np.resize` gives a mask of the requested size whose entry i is `b[i mod len(b)]`, or false when `b` is empty. |
| `Combinator.Pad` | src/instability.py:157-160 | `pad` gives a mask of exactly the series length. It repeats a short mask cyclically and truncates a long one. |
| `Combinator.PadIsIdentity` | src/instability.py:157-162 | A mask that already has the series length passes through `pad` unchanged. |
| `Combinator.Combine` | src/instability.py:162-163 | The combined mask has the series length. When the four masks have that length, entry i is `m1[i] ∨ m2[i] ∨ m3[i] ∨ m4[i]`. |
| `Combinator.InstabilityMask` | src/instability.py:126-163 | An empty series is an error. Otherwise the mask has the series length, and index i is flagged iff at least one of the four heuristics flags it, as each heuristic's specification states. |
| `Combinator.InstabilityMaskDeterministic` | src/instability.py:142-163 | Two runs on the same series and configuration give the same result. |
| `Metrics.CountIsCardinality` | src/metrics.py:42 | `np.sum` of a boolean array is the number of indices at which it is true. |
| `Metrics.MaskedSeries` | src/metrics.py:18-27 | A mask whose length differs from the series is an error. Without a mask every index is used. With a mask, index i is used iff the mask is false there. |
| `Metrics.TimeInRange` | src/metrics.py:30-42 | A mismatched mask is an error. The result is NaN iff no used reading is finite. Otherwise it is (number of used readings in [low, high]) / (number of used indices), with the denominator including used missing readings. The count never exceeds the total. |
| `Metrics.TimeBelowRange` | src/metrics.py:45-53 | A mismatched mask is an error. The result is NaN iff no index is used. Otherwise it is (number of used readings strictly below `low`) / (number of used indices). |
| `Metrics.TimeAboveRange` | src/metrics.py:56-64 | A mismatched mask is an error. The result is NaN iff no index is used. Otherwise it is (number of used readings strictly above `high`) / (number of used indices). |
| `Metrics.FractionsWithinUnitInterval` | src/metrics.py:30-64 | Whenever TIR, TBR or TAR is a number, it lies in [0, 1]. |
| `Metrics.MaskedReadingsIgnored` | src/metrics.py:30-64 | Changing readings at masked-out indices changes none of TIR, TBR or TAR. |
| `Metrics.RangeCountsPartition` | src/metrics.py:35-64 | For low ≤ high, when TIR is a number, TBR and TAR are numbers over the same denominator. The used finite readings are the union of the in-range, below and above sets, which are pairwise disjoint, so each used finite reading is counted by exactly one numerator. The numerators sum to the number of used finite readings. They sum to the denominator iff no used reading is missing. |
| `Metrics.FractionsSumToOneIffNoneMissing` | src/metrics.py:35-64 | For low ≤ high, when TIR is a number, TIR + TBR + TAR = 1 iff no used reading is missing. |
| `Metrics.DefaultBoundsSumToOneIffNoneMissing` | src/metrics.py:30-64 | With the default bounds low = 70 and high = 180, when TIR is a number, TIR + TBR + TAR = 1 iff no used reading is missing. |
| `Metrics.AllMissingGivesZeroNotNaN` | src/metrics.py:35-64 | If some index is used and every used reading is missing, TIR is NaN while TBR and TAR are 0 over the used count. |
| `Session.Contains` | src/session.py:22-25 | The substring test is true iff the pattern occurs at some position. |
| `Session.MaxSessionDays` | src/session.py:9-26 | No identifier gives no answer. An upper-cased identifier containing "G7" gives 10.5, even if it also contains "G6". One containing "G6" but not "G7" gives 10.0. One containing neither gives no answer. |
| `Session.Upper` | src/session.py:21 | ASCII upper-casing: it keeps the length, `a`–`z` become `A`–`Z`, and every other character is unchanged. |
| `Session.UpperIsIdempotent` | src/session.py:21 | Upper-casing twice is the same as upper-casing once. |
| `Session.MaxSessionDaysIgnoresCase` | src/session.py:21 | Upper- or lower-casing the identifier first does not change the answer. |
| `Session.WithoutGIsUnknown` | src/session.py:21-26 | An identifier without the letter G in either case gives no answer. |
| `Session.G7Example` | src/session.py:22-23 | "G7-ABC123" gives 10.5 days. |
| `Session.G6Example` | src/session.py:24-25 | "G6-XYZ" gives 10.0 days. |
| `Session.BothModelsExample` | src/session.py:21-23 | "G6-G7" gives 10.5 days: G7 takes precedence. |
| `Session.UnknownExample` | src/session.py:26 | "unknownmodel" gives no answer. |

## Left out

- LocalVariance.LocalVarianceMask: the adaptive default threshold is not modelled. That default is `np.nanpercentile` of the rolling variances at 95, a floating-point percentile interpolation. The threshold is always an explicit parameter.
- Floating point: readings, variances and fractions are exact reals and exact counts. Rounding in `np.nanvar`, in the difference of two readings, or in the final division is not modelled.
- Infinities: only finite readings and NaN (`Missing`) are modelled. An infinite reading, which numpy compares as a number but `isfinite` rejects, is not represented.
- Array coercion: `_as_array`'s conversion to a float array and its 1-D check have no counterpart, because a `seq` is always one-dimensional.
- Parameters: hours and minutes are natural numbers and the sampling interval is positive. Fractional hours or minutes truncated by `int(...)` are not modelled. A zero interval, which raises a division error in the source, is excluded by a precondition.
- The `interval_min` parameter of `jump_spike_mask` is ignored by the source and is not a parameter of `JumpSpikeMask`.
- `instability_mask` always runs the variance heuristic with a 30-minute window. `Combinator.Config` holds the other keyword parameters. Their defaults are the `Default…` constants; `Combinator.DefaultConfig` gathers them.
- `compute_GMI` and `compute_summary_metrics` (mean, sample standard deviation, coefficient of variation, median, minimum, maximum) are not modelled. They are floating-point statistics outside the counting core.
- Session.MaxSessionDays: `str(device_id)` on non-string identifiers is not modelled, because the identifier is a string.
- Session.Upper: only ASCII letters are mapped. `str.upper` also maps non-ASCII letters (`é` to `É`) and can change the length (`ß` to `SS`). The answer of `max_session_days` does not depend on this: no character other than `g` upper-cases to `G`, and digits have no case.
- Range metrics return a `Fraction` (NaN, or a count over a total) rather than a float. `Fraction.Value` gives the real quotient.
- `src/__init__.py` only re-exports names and is not part of this model.
