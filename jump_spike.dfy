/** The jump/spike heuristic: flag a reading whose absolute change from the previous
    reading exceeds a threshold. The source computes it vectorised (a prepended
    difference, an absolute value, a comparison), and so does this model. */
module JumpSpike {
  import opened Glucose

  /** Default `threshold_mgdL`. */
  const DefaultJumpThreshold: real := 20.0

  function AbsReal(x: real): real
  {
    if x < 0.0 then -x else x
  }

  /** Element-wise subtraction; NaN when either operand is NaN. */
  function Sub(a: Reading, b: Reading): Reading
  {
    if a.Finite? && b.Finite? then Finite(a.v - b.v) else Missing
  }

  /** Element-wise absolute value; NaN stays NaN. */
  function Abs(a: Reading): Reading
  {
    if a.Finite? then Finite(AbsReal(a.v)) else Missing
  }

  /** `a > t`, which is false for NaN. */
  predicate Exceeds(a: Reading, t: real)
  {
    a.Finite? && a.v > t
  }

  /** `np.diff(arr, prepend=arr[0])`: the first entry is `arr[0] - arr[0]`,
      entry `i >= 1` is `arr[i] - arr[i-1]`. */
  function DiffPrepend(arr: Series): (d: Series)
    requires |arr| > 0
    ensures |d| == |arr|
    ensures d[0] == (if arr[0].Finite? then Finite(0.0) else Missing)
    ensures forall i :: 1 <= i < |arr| ==>
      d[i] == (if arr[i].Finite? && arr[i - 1].Finite? then Finite(arr[i].v - arr[i - 1].v) else Missing)
  {
    [Sub(arr[0], arr[0])] + seq(|arr| - 1, i requires 0 <= i < |arr| - 1 => Sub(arr[i + 1], arr[i]))
  }

  /** Which indices the heuristic flags, stated reading by reading. Index 0 is compared
      with itself, so it is flagged only for a finite reading and a negative threshold. */
  predicate JumpFlagged(arr: Series, threshold: real, i: nat)
    requires i < |arr|
  {
    if i == 0 then arr[0].Finite? && 0.0 > threshold
    else arr[i].Finite? && arr[i - 1].Finite? && AbsReal(arr[i].v - arr[i - 1].v) > threshold
  }

  /** `jump_spike_mask`: reading `arr[0]` fails on an empty series. */
  function JumpSpikeMask(arr: Series, threshold: real): (r: Result<Mask>)
    ensures r.Err? <==> |arr| == 0
    ensures r.Err? ==> r.error == EmptySeries
    ensures r.Ok? ==> |r.value| == |arr|
    ensures r.Ok? ==> forall i :: 0 <= i < |arr| ==> (r.value[i] <==> JumpFlagged(arr, threshold, i))
    ensures r.Ok? && threshold >= 0.0 ==> !r.value[0]
    ensures r.Ok? ==> forall i :: 1 <= i < |arr| ==>
      (r.value[i] <==> arr[i].Finite? && arr[i - 1].Finite? && AbsReal(arr[i].v - arr[i - 1].v) > threshold)
    ensures r.Ok? ==> forall i :: 0 <= i < |arr| && arr[i].Missing? ==> !r.value[i]
    ensures r.Ok? ==> forall i :: 1 <= i < |arr| && arr[i - 1].Missing? ==> !r.value[i]
  {
    if |arr| == 0 then Err(EmptySeries)
    else
      var d := DiffPrepend(arr);
      assert forall i :: 0 <= i < |arr| ==> (Exceeds(Abs(d[i]), threshold) <==> JumpFlagged(arr, threshold, i));
      Ok(seq(|arr|, i requires 0 <= i < |arr| => Exceeds(Abs(d[i]), threshold)))
  }

  /** The two-point series [100, 125] with the default threshold: the jump of 25
      lands on index 1, and index 0 is not flagged. */
  lemma TwoPointExample()
    ensures JumpSpikeMask([Finite(100.0), Finite(125.0)], DefaultJumpThreshold) == Ok([false, true])
  {
    var r := JumpSpikeMask([Finite(100.0), Finite(125.0)], DefaultJumpThreshold);
    assert JumpFlagged([Finite(100.0), Finite(125.0)], DefaultJumpThreshold, 1);
    assert r.value == [false, true];
  }
}
