/** The local-variance heuristic: the population variance of the finite readings in each
    trailing window, compared against a threshold; only the window's right edge is
    flagged. */
module LocalVariance {
  import opened Glucose

  /** Default `window_min` and `interval_min`. */
  const DefaultWindowMin: nat := 30
  const DefaultIntervalMin: nat := 5

  /** `max(1, int(window_min / interval_min))`. */
  function WindowPoints(windowMin: nat, intervalMin: nat): (k: nat)
    requires intervalMin > 0
    ensures k >= 1
    ensures k * intervalMin <= Max(windowMin, intervalMin)
    ensures windowMin < (k + 1) * intervalMin
  {
    Max(1, windowMin / intervalMin)
  }

  /** The default 30-minute window at 5-minute sampling is 6 points. */
  lemma DefaultWindowIsSixPoints()
    ensures WindowPoints(DefaultWindowMin, DefaultIntervalMin) == 6
  {
  }

  /** The finite readings of a window, in order (what `np.nanvar` looks at). */
  function FiniteValues(w: Series): (xs: seq<real>)
    ensures |xs| <= |w|
    ensures |xs| > 0 <==> AnyFinite(w)
    ensures forall x :: x in xs ==> Finite(x) in w
  {
    if w == [] then []
    else
      var rest := FiniteValues(w[1..]);
      assert forall p :: 0 <= p < |w[1..]| ==> w[1..][p] == w[p + 1];
      if w[0].Finite? then [w[0].v] + rest else rest
  }

  function Sum(xs: seq<real>): real
  {
    if xs == [] then 0.0 else xs[0] + Sum(xs[1..])
  }

  function Mean(xs: seq<real>): real
    requires |xs| > 0
  {
    Sum(xs) / |xs| as real
  }

  /** The sum of squared deviations of `xs` from `m`. */
  function SquaredDeviations(xs: seq<real>, m: real): (s: real)
    ensures s >= 0.0
  {
    if xs == [] then 0.0
    else
      var d := xs[0] - m;
      assert d * d >= 0.0;
      d * d + SquaredDeviations(xs[1..], m)
  }

  /** Population variance (`ddof = 0`), in exact real arithmetic. */
  function PopulationVariance(xs: seq<real>): (variance: real)
    requires |xs| > 0
    ensures variance >= 0.0
  {
    SquaredDeviations(xs, Mean(xs)) / |xs| as real
  }

  /** `np.nanvar(w)`: the variance of the finite readings, defined when there is one. */
  function NanVar(w: Series): (variance: real)
    requires AnyFinite(w)
    ensures variance >= 0.0
  {
    PopulationVariance(FiniteValues(w))
  }

  /** Index `i` is flagged iff its trailing `k`-window exists, holds a finite reading,
      and the variance of its finite readings is strictly above the threshold. */
  predicate VarianceFlagged(arr: Series, k: nat, threshold: real, i: nat)
    requires i < |arr|
  {
    k <= i + 1 && AnyFinite(Window(arr, k, i)) && NanVar(Window(arr, k, i)) > threshold
  }

  /** `local_variance_mask` with an explicit threshold. */
  method LocalVarianceMask(arr: Series, threshold: real, windowMin: nat, intervalMin: nat)
    returns (mask: Mask)
    requires intervalMin > 0
    ensures |mask| == |arr|
    ensures forall i :: 0 <= i < |arr| ==>
      (mask[i] <==> VarianceFlagged(arr, WindowPoints(windowMin, intervalMin), threshold, i))
    ensures forall i :: 0 <= i < |arr| && i + 1 < WindowPoints(windowMin, intervalMin) ==> !mask[i]
  {
    var n := |arr|;
    var k := WindowPoints(windowMin, intervalMin);
    if n < k {
      return Zeros(n);
    }
    var variance := new Reading[n](_ => Missing);
    for i := k - 1 to n
      invariant forall j :: 0 <= j < n ==>
        variance[j] == (if k <= j + 1 <= i && AnyFinite(Window(arr, k, j))
                        then Finite(NanVar(Window(arr, k, j))) else Missing)
    {
      var w := arr[i - k + 1 .. i + 1];
      assert w == Window(arr, k, i);
      if AnyFinite(w) {
        variance[i] := Finite(NanVar(w));
      }
    }
    mask := seq(n, i requires 0 <= i < n reads variance => variance[i].Finite? && variance[i].v > threshold);
  }

  lemma {:induction false} SumOfConstant(xs: seq<real>, c: real)
    requires forall x :: x in xs ==> x == c
    ensures Sum(xs) == |xs| as real * c
  {
    if xs != [] {
      assert forall x :: x in xs[1..] ==> x in xs;
      SumOfConstant(xs[1..], c);
      assert xs[0] in xs;
      calc {
        Sum(xs);
        c + |xs[1..]| as real * c;
        (|xs[1..]| as real + 1.0) * c;
        |xs| as real * c;
      }
    }
  }

  lemma {:induction false} NoDeviationFromConstant(xs: seq<real>, c: real)
    requires forall x :: x in xs ==> x == c
    ensures SquaredDeviations(xs, c) == 0.0
  {
    if xs != [] {
      assert forall x :: x in xs[1..] ==> x in xs;
      NoDeviationFromConstant(xs[1..], c);
      assert xs[0] in xs;
    }
  }

  /** Values that are all equal have variance 0. */
  lemma ConstantHasZeroVariance(xs: seq<real>, c: real)
    requires |xs| > 0
    requires forall x :: x in xs ==> x == c
    ensures PopulationVariance(xs) == 0.0
  {
    SumOfConstant(xs, c);
    assert Mean(xs) == c;
    NoDeviationFromConstant(xs, c);
  }

  /** A window whose finite readings all equal one value is never flagged when the
      threshold is non-negative. */
  lemma FlatWindowNeverFlagged(arr: Series, k: nat, threshold: real, i: nat, c: real)
    requires k <= i + 1 <= |arr|
    requires forall p :: i + 1 - k <= p <= i && arr[p].Finite? ==> arr[p].v == c
    requires threshold >= 0.0
    ensures !VarianceFlagged(arr, k, threshold, i)
  {
    var w := Window(arr, k, i);
    if AnyFinite(w) {
      var xs := FiniteValues(w);
      forall x | x in xs ensures x == c {
        var p :| 0 <= p < |w| && w[p] == Finite(x);
        assert arr[i - k + 1 + p] == Finite(x);
      }
      ConstantHasZeroVariance(xs, c);
    }
  }

  /** With a negative threshold, every window holding a finite reading is flagged. */
  lemma NegativeThresholdFlagsEveryWindow(arr: Series, k: nat, threshold: real, i: nat)
    requires k <= i + 1 <= |arr|
    requires AnyFinite(Window(arr, k, i))
    requires threshold < 0.0
    ensures VarianceFlagged(arr, k, threshold, i)
  {
  }
}
