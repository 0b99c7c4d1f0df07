/** The drift heuristic, two rules OR'd into one mask:
    - monotonic drift: every trailing window of `kDrift` finite readings that never goes
      down, or never goes up, is flagged in full;
    - prolonged low: every maximal run of finite readings below the low threshold that
      is longer than `kLow` readings is flagged in full. */
module DriftWindow {
  import opened Glucose

  /** Defaults of `drift_duration_hr`, `low_threshold_mgdL` and `low_duration_hr`. */
  const DefaultDriftHours: nat := 24
  const DefaultLowThreshold: real := 70.0
  const DefaultLowHours: nat := 8

  /** `max(2, int(hours * int(60 / interval_min)))`. */
  function HourPoints(hours: nat, intervalMin: nat): (k: nat)
    requires intervalMin > 0
    ensures k >= 2
    ensures k >= hours * (60 / intervalMin)
    ensures k > 2 ==> k == hours * (60 / intervalMin)
  {
    Max(2, hours * (60 / intervalMin))
  }

  /** At 5-minute sampling the default 24-hour drift window is 288 points and the
      default 8-hour low run is 96 points. */
  lemma DefaultWindowsInPoints()
    ensures HourPoints(DefaultDriftHours, 5) == 288
    ensures HourPoints(DefaultLowHours, 5) == 96
  {
  }

  /** Every consecutive step of the window is `>= 0`. */
  predicate NonDecreasing(w: Series)
    requires AllFinite(w)
  {
    forall p :: 0 <= p < |w| - 1 ==> w[p + 1].v - w[p].v >= 0.0
  }

  /** Every consecutive step of the window is `<= 0`. */
  predicate NonIncreasing(w: Series)
    requires AllFinite(w)
  {
    forall p :: 0 <= p < |w| - 1 ==> w[p + 1].v - w[p].v <= 0.0
  }

  /** The trailing `k`-window ending at `i` is all finite and monotonic. */
  predicate MonotonicAt(arr: Series, k: nat, i: int)
  {
    0 <= i < |arr| && k <= i + 1 &&
    var w := Window(arr, k, i);
    AllFinite(w) && (NonDecreasing(w) || NonIncreasing(w))
  }

  /** Some monotonic window ending before `upto` covers index `j`. */
  ghost predicate CoveredBefore(arr: Series, k: nat, upto: int, j: int)
  {
    exists i :: i < upto && MonotonicAt(arr, k, i) && i + 1 - k <= j <= i
  }

  /** Index `j` lies in a qualifying monotonic window. */
  ghost predicate InMonotonicWindow(arr: Series, k: nat, j: int)
  {
    CoveredBefore(arr, k, |arr|, j)
  }

  /** `(arr < low_threshold_mgdL) & np.isfinite(arr)`. */
  predicate IsBelow(r: Reading, threshold: real)
  {
    r.Finite? && r.v < threshold
  }

  /** `[s, e)` is a maximal run of readings below the threshold. */
  ghost predicate LowRun(arr: Series, threshold: real, s: int, e: int)
  {
    0 <= s < e <= |arr| &&
    (forall p :: s <= p < e ==> IsBelow(arr[p], threshold)) &&
    (s == 0 || !IsBelow(arr[s - 1], threshold)) &&
    (e == |arr| || !IsBelow(arr[e], threshold))
  }

  /** Index `j` lies in a maximal low run longer than `kLow` readings. */
  ghost predicate InLongLowRun(arr: Series, threshold: real, kLow: nat, j: int)
  {
    exists s, e :: LowRun(arr, threshold, s, e) && e - s > kLow && s <= j < e
  }

  /** What `drift_window_mask` flags, index by index. */
  ghost predicate DriftFlagged(arr: Series, kDrift: nat, lowThreshold: real, kLow: nat, j: int)
  {
    InMonotonicWindow(arr, kDrift, j) || InLongLowRun(arr, lowThreshold, kLow, j)
  }

  /** `drift_window_mask`. */
  method DriftWindowMask(arr: Series, driftHours: nat, lowThreshold: real, lowHours: nat, intervalMin: nat)
    returns (mask: Mask)
    requires intervalMin > 0
    ensures |mask| == |arr|
    ensures forall j :: 0 <= j < |arr| ==>
      (mask[j] <==> DriftFlagged(arr, HourPoints(driftHours, intervalMin), lowThreshold,
                                 HourPoints(lowHours, intervalMin), j))
  {
    mask := DriftWindowMaskInPoints(arr, HourPoints(driftHours, intervalMin), lowThreshold,
                                    HourPoints(lowHours, intervalMin));
  }

  /** The body of `drift_window_mask` once both durations are converted to points. */
  method DriftWindowMaskInPoints(arr: Series, kDrift: nat, lowThreshold: real, kLow: nat) returns (mask: Mask)
    requires kDrift >= 2 && kLow >= 2
    ensures |mask| == |arr|
    ensures forall j :: 0 <= j < |arr| ==> (mask[j] <==> DriftFlagged(arr, kDrift, lowThreshold, kLow, j))
  {
    var out := new bool[|arr|](_ => false);
    MarkMonotonicWindows(arr, kDrift, out);
    MarkLongLowRuns(arr, lowThreshold, kLow, out);
    mask := out[..];
  }

  /** Pattern 1 of `drift_window_mask`: every all-finite monotonic `kDrift`-window is set
      in a mask that starts all false. */
  method MarkMonotonicWindows(arr: Series, kDrift: nat, out: array<bool>)
    requires kDrift >= 2
    requires out.Length == |arr|
    requires forall j :: 0 <= j < out.Length ==> !out[j]
    modifies out
    ensures forall j :: 0 <= j < out.Length ==> out[j] == InMonotonicWindow(arr, kDrift, j)
  {
    var n := |arr|;
    if n >= kDrift {
      for i := kDrift - 1 to n
        invariant forall j :: 0 <= j < n ==> out[j] == CoveredBefore(arr, kDrift, i, j)
      {
        var w := arr[i - kDrift + 1 .. i + 1];
        assert w == Window(arr, kDrift, i);
        if AllFinite(w) && (NonDecreasing(w) || NonIncreasing(w)) {
          forall j | i - kDrift + 1 <= j < i + 1 {
            out[j] := true;
          }
        }
        forall j | 0 <= j < n ensures out[j] == CoveredBefore(arr, kDrift, i + 1, j) {
          if out[j] && !CoveredBefore(arr, kDrift, i, j) {
            assert MonotonicAt(arr, kDrift, i);
          }
        }
      }
    }
    forall j | 0 <= j < n ensures out[j] == InMonotonicWindow(arr, kDrift, j) {
      if n < kDrift {
        assert !CoveredBefore(arr, kDrift, n, j);
      }
    }
  }

  /** Pattern 2 of `drift_window_mask`: every maximal run of finite readings below the
      threshold that is longer than `kLow` is set; nothing else changes. */
  method MarkLongLowRuns(arr: Series, lowThreshold: real, kLow: nat, out: array<bool>)
    requires out.Length == |arr|
    modifies out
    ensures forall j :: 0 <= j < out.Length ==> out[j] == (old(out[j]) || InLongLowRun(arr, lowThreshold, kLow, j))
  {
    var n := |arr|;
    ghost var before := out[..];
    var below := seq(n, i requires 0 <= i < n => IsBelow(arr[i], lowThreshold));
    if exists i :: 0 <= i < n && below[i] {
      var runStart: Option<nat> := None;
      for i := 0 to n + 1
        invariant runStart.Some? ==> runStart.value < i <= n
        invariant runStart.Some? ==> forall p :: runStart.value <= p < i ==> IsBelow(arr[p], lowThreshold)
        invariant runStart.Some? ==> runStart.value == 0 || !IsBelow(arr[runStart.value - 1], lowThreshold)
        invariant runStart.None? && 0 < i <= n ==> !IsBelow(arr[i - 1], lowThreshold)
        invariant forall j :: 0 <= j < n ==>
          out[j] == (before[j] || (j < Done(runStart, i, n) && InLongLowRun(arr, lowThreshold, kLow, j)))
      {
        if i < n && below[i] {
          if runStart.None? {
            runStart := Some(i);
          }
        } else {
          if runStart.Some? {
            var s := runStart.value;
            var runLen := i - s;
            LowRunMembership(arr, lowThreshold, kLow, s, i);
            if runLen > kLow {
              forall j | s <= j < i {
                out[j] := true;
              }
            }
            runStart := None;
          }
          if i < n {
            NotBelowNotInRun(arr, lowThreshold, kLow, i);
          }
        }
      }
    } else {
      forall j | 0 <= j < n ensures !InLongLowRun(arr, lowThreshold, kLow, j) {
        assert !below[j];
        NotBelowNotInRun(arr, lowThreshold, kLow, j);
      }
    }
  }

  /** How far the low-run scan has settled the mask: everything before the open run,
      or everything scanned so far. */
  function Done(runStart: Option<nat>, i: nat, n: nat): nat
  {
    if runStart.Some? then runStart.value else if i < n then i else n
  }

  /** Two maximal low runs that share an index are the same run. */
  lemma LowRunUnique(arr: Series, threshold: real, s1: int, e1: int, s2: int, e2: int, j: int)
    requires LowRun(arr, threshold, s1, e1) && s1 <= j < e1
    requires LowRun(arr, threshold, s2, e2) && s2 <= j < e2
    ensures s1 == s2 && e1 == e2
  {
  }

  /** Inside a maximal low run, an index is in a long low run exactly when this run is
      longer than `kLow`. */
  lemma LowRunMembership(arr: Series, threshold: real, kLow: nat, s: int, e: int)
    requires LowRun(arr, threshold, s, e)
    ensures forall j :: s <= j < e ==> (InLongLowRun(arr, threshold, kLow, j) <==> e - s > kLow)
  {
    forall j | s <= j < e && InLongLowRun(arr, threshold, kLow, j) ensures e - s > kLow {
      var s', e' :| LowRun(arr, threshold, s', e') && e' - s' > kLow && s' <= j < e';
      LowRunUnique(arr, threshold, s, e, s', e', j);
    }
  }

  /** A reading that is not below the threshold is in no low run. */
  lemma NotBelowNotInRun(arr: Series, threshold: real, kLow: nat, j: int)
    requires 0 <= j < |arr| && !IsBelow(arr[j], threshold)
    ensures !InLongLowRun(arr, threshold, kLow, j)
  {
  }

  /** A series of at least `k` finite readings that only ever rises (the 289-point
      day of readings at the default settings, for one) is flagged at every index by
      the monotonic rule. */
  lemma {:induction false} RisingSeriesFullyFlagged(arr: Series, k: nat, j: int)
    requires 1 <= k <= |arr| && 0 <= j < |arr|
    requires forall p :: 0 <= p < |arr| ==> arr[p].Finite?
    requires forall p :: 0 < p < |arr| ==> arr[p - 1].v < arr[p].v
    ensures InMonotonicWindow(arr, k, j)
  {
    var i := if j < k - 1 then k - 1 else j;
    var w := Window(arr, k, i);
    assert forall p :: 0 <= p < |w| - 1 ==> w[p + 1].v - w[p].v >= 0.0 by {
      forall p | 0 <= p < |w| - 1 ensures w[p + 1].v - w[p].v >= 0.0 {
        assert w[p + 1] == arr[i - k + 1 + p + 1];
      }
    }
    assert MonotonicAt(arr, k, i);
  }

  /** A window of identical finite readings is monotonic, so it is flagged in full. */
  lemma ConstantWindowQualifies(arr: Series, k: nat, i: int, c: real, j: int)
    requires 0 <= i < |arr| && k <= i + 1 && i + 1 - k <= j <= i
    requires forall p :: i + 1 - k <= p <= i ==> arr[p] == Finite(c)
    ensures InMonotonicWindow(arr, k, j)
  {
    var w := Window(arr, k, i);
    assert forall p :: 0 <= p < |w| ==> w[p] == arr[i + 1 - k + p];
    assert MonotonicAt(arr, k, i);
  }
}
