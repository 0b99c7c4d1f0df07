/** The combinator: the four heuristic masks, each brought to the series length by
    `pad` (which uses `np.resize`, a cyclic repetition), OR'd element by element. */
module Combinator {
  import opened Glucose
  import JumpSpike
  import LocalVariance
  import DriftWindow
  import DropoutFlatline

  /** The keyword parameters of `instability_mask`. The variance heuristic always runs
      with a 30-minute window; its threshold is given explicitly. */
  datatype Config = Config(
    varianceThreshold: real,
    jumpThreshold: real,
    driftHours: nat,
    lowThreshold: real,
    lowHours: nat,
    flatlineWindowMin: nat,
    intervalMin: nat)
  {
    predicate Valid()
    {
      intervalMin > 0
    }
  }

  /** The defaults of every parameter but the variance threshold. */
  function DefaultConfig(varianceThreshold: real): (c: Config)
    ensures c.Valid()
  {
    Config(varianceThreshold, JumpSpike.DefaultJumpThreshold, DriftWindow.DefaultDriftHours,
           DriftWindow.DefaultLowThreshold, DriftWindow.DefaultLowHours,
           DropoutFlatline.DefaultFlatlineWindowMin, LocalVariance.DefaultIntervalMin)
  }

  /** `b` concatenated `times` times. */
  function Repeat(b: Mask, times: nat): (r: Mask)
    ensures |r| == |b| * times
  {
    if times == 0 then [] else b + Repeat(b, times - 1)
  }

  lemma {:induction false} RepeatAt(b: Mask, times: nat, i: nat)
    requires |b| > 0 && i < |b| * times
    ensures Repeat(b, times)[i] == b[i % |b|]
  {
    var m := |b|;
    assert times != 0;
    assert m * times == m + m * (times - 1);
    if i < m {
      assert i % m == i;
    } else {
      RepeatAt(b, times - 1, i - m);
      ModShift(i - m, m);
    }
  }

  lemma ModShift(x: nat, m: nat)
    requires m > 0
    ensures (x + m) % m == x % m
  {
    var q, r := x / m, x % m;
    var q', r' := (x + m) / m, (x + m) % m;
    assert x == q * m + r && 0 <= r < m;
    assert x + m == q' * m + r' && 0 <= r' < m;
    var d := q' - q - 1;
    assert d * m == q' * m - q * m - m;
    assert d * m == r - r';
    assert d >= 1 ==> d * m >= m by {
      if d >= 1 {
        assert d * m == m + (d - 1) * m;
      }
    }
  }

  /** `np.resize(b, size)`: `b` repeated cyclically and cut to `size`; an empty `b`
      gives `size` false entries. */
  function Resize(b: Mask, size: nat): (r: Mask)
    ensures |r| == size
    ensures forall i :: 0 <= i < size ==> r[i] == (|b| > 0 && b[i % |b|])
  {
    if |b| == 0 || size == 0 then Zeros(size)
    else
      var repeats := (size + |b| - 1) / |b|;
      assert size <= |b| * repeats;
      var r := Repeat(b, repeats)[..size];
      assert forall i :: 0 <= i < size ==> r[i] == b[i % |b|] by {
        forall i | 0 <= i < size ensures r[i] == b[i % |b|] {
          RepeatAt(b, repeats, i);
        }
      }
      r
  }

  /** The `pad` helper of `instability_mask`: resize a short mask, truncate a long one. */
  function Pad(b: Mask, size: nat): (r: Mask)
    ensures |r| == size
    ensures forall i :: 0 <= i < size ==> r[i] == (|b| > 0 && b[i % |b|])
  {
    if |b| < size then Resize(b, size) else b[..size]
  }

  /** A mask that already has the series length passes through `pad` unchanged. */
  lemma PadIsIdentity(b: Mask)
    ensures Pad(b, |b|) == b
  {
    assert forall i :: 0 <= i < |b| ==> i % |b| == i;
  }

  /** `(pad(m1) | pad(m2) | pad(m3) | pad(m4)).astype(bool)`. */
  function Combine(n: nat, m1: Mask, m2: Mask, m3: Mask, m4: Mask): (r: Mask)
    ensures |r| == n
    ensures |m1| == n && |m2| == n && |m3| == n && |m4| == n ==>
      forall i :: 0 <= i < n ==> r[i] == (m1[i] || m2[i] || m3[i] || m4[i])
  {
    var p1, p2, p3, p4 := Pad(m1, n), Pad(m2, n), Pad(m3, n), Pad(m4, n);
    assert |m1| == n && |m2| == n && |m3| == n && |m4| == n ==> p1 == m1 && p2 == m2 && p3 == m3 && p4 == m4 by {
      if |m1| == n && |m2| == n && |m3| == n && |m4| == n {
        PadIsIdentity(m1);
        PadIsIdentity(m2);
        PadIsIdentity(m3);
        PadIsIdentity(m4);
      }
    }
    seq(n, i requires 0 <= i < n => p1[i] || p2[i] || p3[i] || p4[i])
  }

  /** Index `i` is flagged by at least one of the four heuristics. */
  ghost predicate Unstable(arr: Series, c: Config, i: nat)
    requires c.Valid() && i < |arr|
  {
    LocalVariance.VarianceFlagged(arr, LocalVariance.WindowPoints(30, c.intervalMin), c.varianceThreshold, i) ||
    JumpSpike.JumpFlagged(arr, c.jumpThreshold, i) ||
    DriftWindow.DriftFlagged(arr, DriftWindow.HourPoints(c.driftHours, c.intervalMin), c.lowThreshold,
                             DriftWindow.HourPoints(c.lowHours, c.intervalMin), i) ||
    DropoutFlatline.FlatFlagged(arr, DropoutFlatline.FlatlinePoints(c.flatlineWindowMin, c.intervalMin), i)
  }

  /** `instability_mask`: fails on an empty series (the jump heuristic reads `arr[0]`);
      otherwise a mask of the series length flagging exactly the unstable indices. */
  method InstabilityMask(arr: Series, c: Config) returns (r: Result<Mask>)
    requires c.Valid()
    ensures r.Err? <==> |arr| == 0
    ensures r.Err? ==> r.error == EmptySeries
    ensures r.Ok? ==> |r.value| == |arr|
    ensures r.Ok? ==> forall i :: 0 <= i < |arr| ==> (r.value[i] <==> Unstable(arr, c, i))
  {
    var m1 := LocalVariance.LocalVarianceMask(arr, c.varianceThreshold, 30, c.intervalMin);
    var jump := JumpSpike.JumpSpikeMask(arr, c.jumpThreshold);
    if jump.Err? {
      return Err(jump.error);
    }
    var m2 := jump.value;
    var m3 := DriftWindow.DriftWindowMask(arr, c.driftHours, c.lowThreshold, c.lowHours, c.intervalMin);
    var m4 := DropoutFlatline.DropoutFlatlineMask(arr, c.flatlineWindowMin, c.intervalMin);
    r := Ok(Combine(|arr|, m1, m2, m3, m4));
  }

  /** Running the combinator twice on the same series and configuration gives the same
      mask: nothing hidden (randomness, a clock) feeds into it. */
  method InstabilityMaskDeterministic(arr: Series, c: Config) returns (first: Result<Mask>, second: Result<Mask>)
    requires c.Valid()
    ensures first == second
  {
    first := InstabilityMask(arr, c);
    second := InstabilityMask(arr, c);
    if first.Ok? {
      assert forall i :: 0 <= i < |arr| ==> first.value[i] == second.value[i];
      assert first.value == second.value;
    }
  }
}
