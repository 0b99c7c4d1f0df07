/** The flatline heuristic: every trailing window of finite readings whose maximum
    equals its minimum is flagged in full. Despite its name, the source function has no
    rule that flags missing readings. */
module DropoutFlatline {
  import opened Glucose

  /** Default `window_min`. */
  const DefaultFlatlineWindowMin: nat := 30

  /** `max(2, int(window_min / interval_min))`. */
  function FlatlinePoints(windowMin: nat, intervalMin: nat): (k: nat)
    requires intervalMin > 0
    ensures k >= 2
    ensures k >= windowMin / intervalMin
    ensures k > 2 ==> k == windowMin / intervalMin
  {
    Max(2, windowMin / intervalMin)
  }

  /** The default 30-minute flatline window at 5-minute sampling is 6 points. */
  lemma DefaultWindowIsSixPoints()
    ensures FlatlinePoints(DefaultFlatlineWindowMin, 5) == 6
  {
  }

  /** `np.nanmax` of a window of finite readings. */
  function MaxValue(w: Series): (m: real)
    requires |w| > 0 && AllFinite(w)
    ensures forall p :: 0 <= p < |w| ==> w[p].v <= m
    ensures exists p :: 0 <= p < |w| && w[p].v == m
  {
    if |w| == 1 then w[0].v
    else
      var rest := MaxValue(w[1..]);
      assert forall p :: 0 < p < |w| ==> w[p] == w[1..][p - 1];
      if w[0].v < rest then rest else w[0].v
  }

  /** `np.nanmin` of a window of finite readings. */
  function MinValue(w: Series): (m: real)
    requires |w| > 0 && AllFinite(w)
    ensures forall p :: 0 <= p < |w| ==> m <= w[p].v
    ensures exists p :: 0 <= p < |w| && w[p].v == m
  {
    if |w| == 1 then w[0].v
    else
      var rest := MinValue(w[1..]);
      assert forall p :: 0 < p < |w| ==> w[p] == w[1..][p - 1];
      if rest < w[0].v then rest else w[0].v
  }

  /** Every reading of the window is identical. */
  predicate Constant(w: Series)
  {
    forall p :: 0 <= p < |w| ==> w[p] == w[0]
  }

  /** The trailing `k`-window ending at `i` is all finite and constant. */
  predicate FlatAt(arr: Series, k: nat, i: int)
  {
    0 <= i < |arr| && k <= i + 1 &&
    var w := Window(arr, k, i);
    AllFinite(w) && Constant(w)
  }

  /** Some flat window ending before `upto` covers index `j`. */
  ghost predicate FlatBefore(arr: Series, k: nat, upto: int, j: int)
  {
    exists i :: i < upto && FlatAt(arr, k, i) && i + 1 - k <= j <= i
  }

  /** What `dropout_flatline_mask` flags: index `j` lies in a flat window. */
  ghost predicate FlatFlagged(arr: Series, k: nat, j: int)
  {
    FlatBefore(arr, k, |arr|, j)
  }

  /** For finite readings, `max == min` holds exactly when the window is constant. */
  lemma MaxEqualsMinIffConstant(w: Series)
    requires |w| > 0 && AllFinite(w)
    ensures MaxValue(w) == MinValue(w) <==> Constant(w)
  {
    if MaxValue(w) == MinValue(w) {
      forall p | 0 <= p < |w| ensures w[p] == w[0] {
        assert w[p].v == MaxValue(w) == w[0].v;
      }
    }
    if Constant(w) {
      var p :| 0 <= p < |w| && w[p].v == MaxValue(w);
      var q :| 0 <= q < |w| && w[q].v == MinValue(w);
      assert w[p] == w[0] == w[q];
    }
  }

  /** `dropout_flatline_mask`. */
  method DropoutFlatlineMask(arr: Series, windowMin: nat, intervalMin: nat) returns (mask: Mask)
    requires intervalMin > 0
    ensures |mask| == |arr|
    ensures forall j :: 0 <= j < |arr| ==> (mask[j] <==> FlatFlagged(arr, FlatlinePoints(windowMin, intervalMin), j))
    ensures |arr| < FlatlinePoints(windowMin, intervalMin) ==> forall j :: 0 <= j < |arr| ==> !mask[j]
  {
    mask := DropoutFlatlineMaskInPoints(arr, FlatlinePoints(windowMin, intervalMin));
  }

  /** The body of `dropout_flatline_mask` once the window is converted to points. */
  method DropoutFlatlineMaskInPoints(arr: Series, k: nat) returns (mask: Mask)
    requires k >= 2
    ensures |mask| == |arr|
    ensures forall j :: 0 <= j < |arr| ==> (mask[j] <==> FlatFlagged(arr, k, j))
    ensures |arr| < k ==> forall j :: 0 <= j < |arr| ==> !mask[j]
  {
    var n := |arr|;
    if n < k {
      forall j | 0 <= j < n ensures !FlatFlagged(arr, k, j) {
        assert !FlatBefore(arr, k, n, j);
      }
      return Zeros(n);
    }
    var out := new bool[n](_ => false);
    for i := k - 1 to n
      invariant forall j :: 0 <= j < n ==> out[j] == FlatBefore(arr, k, i, j)
    {
      var w := arr[i - k + 1 .. i + 1];
      assert w == Window(arr, k, i);
      var flat := AllFinite(w) && MaxValue(w) == MinValue(w);
      if AllFinite(w) {
        MaxEqualsMinIffConstant(w);
      }
      if flat {
        forall j | i - k + 1 <= j < i + 1 {
          out[j] := true;
        }
      }
      forall j | 0 <= j < n ensures out[j] == FlatBefore(arr, k, i + 1, j) {
        if out[j] && !FlatBefore(arr, k, i, j) {
          assert FlatAt(arr, k, i);
        }
      }
    }
    mask := out[..];
  }

  /** A missing reading is never flagged by this heuristic. */
  lemma MissingNeverFlagged(arr: Series, k: nat, j: int)
    requires 0 <= j < |arr| && arr[j].Missing?
    ensures !FlatFlagged(arr, k, j)
  {
  }

  /** A window of `k` identical finite readings is flagged at every index it covers. */
  lemma IdenticalReadingsFlagged(arr: Series, k: nat, i: int, c: real, j: int)
    requires 0 <= i < |arr| && k <= i + 1
    requires forall p :: i + 1 - k <= p <= i ==> arr[p] == Finite(c)
    requires i + 1 - k <= j <= i
    ensures FlatFlagged(arr, k, j)
  {
    var w := Window(arr, k, i);
    assert forall p :: 0 <= p < |w| ==> w[p] == arr[i + 1 - k + p];
    assert FlatAt(arr, k, i);
  }
}
