/** The masked range fractions: time in range (TIR), below range (TBR) and above range
    (TAR). Each is a count of qualifying used readings over the count of used readings,
    where an index is used unless the optional mask excludes it. */
module Metrics {
  import opened Glucose

  /** Default range bounds, in mg/dL. */
  const DefaultLow: real := 70.0
  const DefaultHigh: real := 180.0

  /** The value a range metric returns: NaN, or `count / total`. */
  datatype Fraction = NaN | Ratio(count: nat, total: nat)
  {
    function Value(): real
      requires Ratio? && total > 0
    {
      count as real / total as real
    }
  }

  /** `np.any` of a boolean array. */
  predicate Any(s: seq<bool>)
  {
    exists i :: 0 <= i < |s| && s[i]
  }

  /** `np.sum` of a boolean array. */
  function Count(s: seq<bool>): nat
  {
    if s == [] then 0 else Count(s[..|s| - 1]) + (if s[|s| - 1] then 1 else 0)
  }

  /** The indices at which a boolean array is true. */
  ghost function TrueIndices(s: seq<bool>): set<int>
  {
    set i | 0 <= i < |s| && s[i]
  }

  lemma {:induction false} CountIsCardinality(s: seq<bool>)
    ensures Count(s) == |TrueIndices(s)|
  {
    if s == [] {
      assert TrueIndices(s) == {};
    } else {
      var t := s[..|s| - 1];
      CountIsCardinality(t);
      if s[|s| - 1] {
        assert TrueIndices(s) == TrueIndices(t) + {|s| - 1};
      } else {
        assert TrueIndices(s) == TrueIndices(t);
      }
    }
  }

  /** `arr >= low & arr <= high`, false for NaN. */
  predicate InRange(r: Reading, low: real, high: real)
  {
    r.Finite? && low <= r.v <= high
  }

  /** `arr < low`, false for NaN. */
  predicate Below(r: Reading, low: real)
  {
    r.Finite? && r.v < low
  }

  /** `arr > high`, false for NaN. */
  predicate Above(r: Reading, high: real)
  {
    r.Finite? && r.v > high
  }

  /** Index `i` is not excluded by the mask. */
  predicate IsUsed(mask: Option<Mask>, i: int)
  {
    mask.None? || (0 <= i < |mask.value| && !mask.value[i])
  }

  /** The mask is absent or matches the series length. */
  predicate MaskFits(arr: Series, mask: Option<Mask>)
  {
    mask.None? || |mask.value| == |arr|
  }

  ghost function Used(arr: Series, mask: Option<Mask>): set<int>
  {
    set i | 0 <= i < |arr| && IsUsed(mask, i)
  }

  ghost function UsedFinite(arr: Series, mask: Option<Mask>): set<int>
  {
    set i | 0 <= i < |arr| && IsUsed(mask, i) && arr[i].Finite?
  }

  ghost function UsedInRange(arr: Series, mask: Option<Mask>, low: real, high: real): set<int>
  {
    set i | 0 <= i < |arr| && IsUsed(mask, i) && InRange(arr[i], low, high)
  }

  ghost function UsedBelow(arr: Series, mask: Option<Mask>, low: real): set<int>
  {
    set i | 0 <= i < |arr| && IsUsed(mask, i) && Below(arr[i], low)
  }

  ghost function UsedAbove(arr: Series, mask: Option<Mask>, high: real): set<int>
  {
    set i | 0 <= i < |arr| && IsUsed(mask, i) && Above(arr[i], high)
  }

  /** `_masked_series`: which indices are used; a mask of the wrong length is an error. */
  function MaskedSeries(arr: Series, mask: Option<Mask>): (r: Result<Mask>)
    ensures r.Err? <==> !MaskFits(arr, mask)
    ensures r.Err? ==> r.error == MaskLengthMismatch
    ensures r.Ok? ==> |r.value| == |arr|
    ensures r.Ok? && mask.None? ==> forall i :: 0 <= i < |arr| ==> r.value[i]
    ensures r.Ok? && mask.Some? ==> forall i :: 0 <= i < |arr| ==> r.value[i] == !mask.value[i]
  {
    if mask.None? then Ok(seq(|arr|, _ => true))
    else if |mask.value| != |arr| then Err(MaskLengthMismatch)
    else Ok(seq(|arr|, i requires 0 <= i < |arr| => !mask.value[i]))
  }

  /** `compute_TIR`: NaN when no used reading is finite; otherwise the used readings in
      `[low, high]` over all used readings, the missing ones included. */
  function TimeInRange(arr: Series, mask: Option<Mask>, low: real, high: real): (r: Result<Fraction>)
    ensures r.Err? <==> !MaskFits(arr, mask)
    ensures r.Err? ==> r.error == MaskLengthMismatch
    ensures r.Ok? ==> (r.value.NaN? <==> UsedFinite(arr, mask) == {})
    ensures r.Ok? && r.value.Ratio? ==>
      r.value.total == |Used(arr, mask)| > 0 &&
      r.value.count == |UsedInRange(arr, mask, low, high)| &&
      r.value.count <= r.value.total
  {
    var ms := MaskedSeries(arr, mask);
    if ms.Err? then Err(ms.error)
    else
      var use := ms.value;
      UsedCount(arr, mask, use);
      if !Any(use) then
        Ok(NaN)
      else
        var valid := seq(|arr|, i requires 0 <= i < |arr| => arr[i].Finite? && use[i]);
        assert TrueIndices(valid) == UsedFinite(arr, mask);
        AnyIffSomeTrue(valid);
        if !Any(valid) then
          Ok(NaN)
        else
          var inRange := seq(|arr|, i requires 0 <= i < |arr| => InRange(arr[i], low, high) && use[i]);
          CountIsCardinality(inRange);
          assert TrueIndices(inRange) == UsedInRange(arr, mask, low, high);
          SubsetCardinality(UsedInRange(arr, mask, low, high), Used(arr, mask));
          Ok(Ratio(Count(inRange), Count(use)))
  }

  /** `compute_TBR`: NaN only when no index is used; otherwise the used readings below
      `low` over all used readings. */
  function TimeBelowRange(arr: Series, mask: Option<Mask>, low: real): (r: Result<Fraction>)
    ensures r.Err? <==> !MaskFits(arr, mask)
    ensures r.Err? ==> r.error == MaskLengthMismatch
    ensures r.Ok? ==> (r.value.NaN? <==> Used(arr, mask) == {})
    ensures r.Ok? && r.value.Ratio? ==>
      r.value.total == |Used(arr, mask)| > 0 &&
      r.value.count == |UsedBelow(arr, mask, low)| &&
      r.value.count <= r.value.total
  {
    var ms := MaskedSeries(arr, mask);
    if ms.Err? then Err(ms.error)
    else
      var use := ms.value;
      UsedCount(arr, mask, use);
      if !Any(use) then
        Ok(NaN)
      else
        var below := seq(|arr|, i requires 0 <= i < |arr| => Below(arr[i], low) && use[i]);
        CountIsCardinality(below);
        assert TrueIndices(below) == UsedBelow(arr, mask, low);
        SubsetCardinality(UsedBelow(arr, mask, low), Used(arr, mask));
        Ok(Ratio(Count(below), Count(use)))
  }

  /** `compute_TAR`: NaN only when no index is used; otherwise the used readings above
      `high` over all used readings. */
  function TimeAboveRange(arr: Series, mask: Option<Mask>, high: real): (r: Result<Fraction>)
    ensures r.Err? <==> !MaskFits(arr, mask)
    ensures r.Err? ==> r.error == MaskLengthMismatch
    ensures r.Ok? ==> (r.value.NaN? <==> Used(arr, mask) == {})
    ensures r.Ok? && r.value.Ratio? ==>
      r.value.total == |Used(arr, mask)| > 0 &&
      r.value.count == |UsedAbove(arr, mask, high)| &&
      r.value.count <= r.value.total
  {
    var ms := MaskedSeries(arr, mask);
    if ms.Err? then Err(ms.error)
    else
      var use := ms.value;
      UsedCount(arr, mask, use);
      if !Any(use) then
        Ok(NaN)
      else
        var above := seq(|arr|, i requires 0 <= i < |arr| => Above(arr[i], high) && use[i]);
        CountIsCardinality(above);
        assert TrueIndices(above) == UsedAbove(arr, mask, high);
        SubsetCardinality(UsedAbove(arr, mask, high), Used(arr, mask));
        Ok(Ratio(Count(above), Count(use)))
  }

  /** The used array of `_masked_series` marks, and counts, the used indices. */
  lemma UsedCount(arr: Series, mask: Option<Mask>, use: Mask)
    requires MaskedSeries(arr, mask) == Ok(use)
    ensures forall i :: 0 <= i < |arr| ==> (use[i] <==> IsUsed(mask, i))
    ensures Count(use) == |Used(arr, mask)|
    ensures Any(use) <==> Used(arr, mask) != {}
  {
    CountIsCardinality(use);
    assert TrueIndices(use) == Used(arr, mask);
    AnyIffSomeTrue(use);
  }

  lemma AnyIffSomeTrue(s: seq<bool>)
    ensures Any(s) <==> TrueIndices(s) != {}
  {
    if Any(s) {
      var i :| 0 <= i < |s| && s[i];
      assert i in TrueIndices(s);
    }
  }

  lemma SubsetCardinality(a: set<int>, b: set<int>)
    requires a <= b
    ensures |a| <= |b|
  {
    assert b == a + (b - a);
  }

  lemma RatioBounds(count: nat, total: nat)
    requires 0 < total && count <= total
    ensures 0.0 <= Ratio(count, total).Value() <= 1.0
  {
    var c, t := count as real, total as real;
    assert c / t * t == c;
  }

  /** Whenever TIR, TBR or TAR is a number, it lies in [0, 1]. */
  lemma FractionsWithinUnitInterval(arr: Series, mask: Option<Mask>, low: real, high: real)
    ensures var r := TimeInRange(arr, mask, low, high);
      r.Ok? && r.value.Ratio? ==> 0.0 <= r.value.Value() <= 1.0
    ensures var r := TimeBelowRange(arr, mask, low);
      r.Ok? && r.value.Ratio? ==> 0.0 <= r.value.Value() <= 1.0
    ensures var r := TimeAboveRange(arr, mask, high);
      r.Ok? && r.value.Ratio? ==> 0.0 <= r.value.Value() <= 1.0
  {
    var r1, r2, r3 := TimeInRange(arr, mask, low, high), TimeBelowRange(arr, mask, low), TimeAboveRange(arr, mask, high);
    if r1.Ok? && r1.value.Ratio? {
      RatioBounds(r1.value.count, r1.value.total);
    }
    if r2.Ok? && r2.value.Ratio? {
      RatioBounds(r2.value.count, r2.value.total);
    }
    if r3.Ok? && r3.value.Ratio? {
      RatioBounds(r3.value.count, r3.value.total);
    }
  }

  /** Changing a reading at an index the mask excludes changes none of the three
      fractions: masked indices are in neither numerator nor denominator. */
  lemma MaskedReadingsIgnored(arr: Series, arr': Series, mask: Option<Mask>, low: real, high: real)
    requires |arr| == |arr'|
    requires forall i :: 0 <= i < |arr| && IsUsed(mask, i) ==> arr[i] == arr'[i]
    ensures TimeInRange(arr, mask, low, high) == TimeInRange(arr', mask, low, high)
    ensures TimeBelowRange(arr, mask, low) == TimeBelowRange(arr', mask, low)
    ensures TimeAboveRange(arr, mask, high) == TimeAboveRange(arr', mask, high)
  {
    assert Used(arr, mask) == Used(arr', mask);
    assert UsedFinite(arr, mask) == UsedFinite(arr', mask);
    assert UsedInRange(arr, mask, low, high) == UsedInRange(arr', mask, low, high);
    assert UsedBelow(arr, mask, low) == UsedBelow(arr', mask, low);
    assert UsedAbove(arr, mask, high) == UsedAbove(arr', mask, high);
  }

  /** For `low <= high`, every used finite reading is counted by exactly one of the
      three numerators, so the numerators add up to the used finite readings; they add
      up to the shared denominator exactly when no used reading is missing. */
  lemma RangeCountsPartition(arr: Series, mask: Option<Mask>, low: real, high: real)
    requires low <= high
    requires TimeInRange(arr, mask, low, high).Ok? && TimeInRange(arr, mask, low, high).value.Ratio?
    ensures var tir, tbr, tar := TimeInRange(arr, mask, low, high).value,
                                 TimeBelowRange(arr, mask, low).value, TimeAboveRange(arr, mask, high).value;
      TimeBelowRange(arr, mask, low).Ok? && tbr.Ratio? && tbr.total == tir.total &&
      TimeAboveRange(arr, mask, high).Ok? && tar.Ratio? && tar.total == tir.total &&
      UsedFinite(arr, mask) == UsedInRange(arr, mask, low, high) + UsedBelow(arr, mask, low) + UsedAbove(arr, mask, high) &&
      UsedInRange(arr, mask, low, high) * UsedBelow(arr, mask, low) == {} &&
      UsedInRange(arr, mask, low, high) * UsedAbove(arr, mask, high) == {} &&
      UsedBelow(arr, mask, low) * UsedAbove(arr, mask, high) == {} &&
      tir.count + tbr.count + tar.count == |UsedFinite(arr, mask)| &&
      (tir.count + tbr.count + tar.count == tir.total <==>
         forall i :: 0 <= i < |arr| && IsUsed(mask, i) ==> arr[i].Finite?)
  {
    PartitionOfFinite(arr, mask, low, high);
    FiniteCoversUsed(arr, mask);
  }

  /** The used finite readings split into the three disjoint range sets. */
  lemma PartitionOfFinite(arr: Series, mask: Option<Mask>, low: real, high: real)
    requires low <= high
    ensures UsedFinite(arr, mask) == UsedInRange(arr, mask, low, high) + UsedBelow(arr, mask, low) + UsedAbove(arr, mask, high)
    ensures UsedInRange(arr, mask, low, high) * UsedBelow(arr, mask, low) == {}
    ensures UsedInRange(arr, mask, low, high) * UsedAbove(arr, mask, high) == {}
    ensures UsedBelow(arr, mask, low) * UsedAbove(arr, mask, high) == {}
    ensures |UsedInRange(arr, mask, low, high)| + |UsedBelow(arr, mask, low)| + |UsedAbove(arr, mask, high)|
            == |UsedFinite(arr, mask)|
  {
    var inR, below, above := UsedInRange(arr, mask, low, high), UsedBelow(arr, mask, low), UsedAbove(arr, mask, high);
    assert UsedFinite(arr, mask) == inR + below + above;
    DisjointUnion(inR, below);
    DisjointUnion(inR + below, above);
  }

  lemma FiniteCoversUsed(arr: Series, mask: Option<Mask>)
    ensures |UsedFinite(arr, mask)| == |Used(arr, mask)| <==>
            forall i :: 0 <= i < |arr| && IsUsed(mask, i) ==> arr[i].Finite?
  {
    var fin, used := UsedFinite(arr, mask), Used(arr, mask);
    DisjointUnion(fin, used - fin);
    assert used == fin + (used - fin);
    if forall i :: 0 <= i < |arr| && IsUsed(mask, i) ==> arr[i].Finite? {
      assert used == fin;
    } else {
      var i :| 0 <= i < |arr| && IsUsed(mask, i) && !arr[i].Finite?;
      assert i in used - fin;
    }
  }

  lemma DisjointUnion(a: set<int>, b: set<int>)
    requires a * b == {}
    ensures |a + b| == |a| + |b|
  {
  }

  /** The three fractions sum to 1 exactly when no used reading is missing. */
  lemma FractionsSumToOneIffNoneMissing(arr: Series, mask: Option<Mask>, low: real, high: real)
    requires low <= high
    requires TimeInRange(arr, mask, low, high).Ok? && TimeInRange(arr, mask, low, high).value.Ratio?
    ensures TimeBelowRange(arr, mask, low).Ok? && TimeBelowRange(arr, mask, low).value.Ratio?
    ensures TimeAboveRange(arr, mask, high).Ok? && TimeAboveRange(arr, mask, high).value.Ratio?
    ensures TimeInRange(arr, mask, low, high).value.Value() + TimeBelowRange(arr, mask, low).value.Value()
              + TimeAboveRange(arr, mask, high).value.Value() == 1.0
            <==> forall i :: 0 <= i < |arr| && IsUsed(mask, i) ==> arr[i].Finite?
  {
    RangeCountsPartition(arr, mask, low, high);
    var tir, tbr, tar := TimeInRange(arr, mask, low, high).value,
                         TimeBelowRange(arr, mask, low).value, TimeAboveRange(arr, mask, high).value;
    SumOfFractions(tir.count, tbr.count, tar.count, tir.total);
  }

  lemma SumOfFractions(a: nat, b: nat, c: nat, t: nat)
    requires t > 0
    ensures Ratio(a, t).Value() + Ratio(b, t).Value() + Ratio(c, t).Value() == 1.0 <==> a + b + c == t
  {
    var a', b', c', t' := a as real, b as real, c as real, t as real;
    assert a' / t' + b' / t' + c' / t' == (a' + b' + c') / t';
  }

  /** With the default bounds of 70 and 180 mg/dL, TIR + TBR + TAR = 1 exactly when no
      used reading is missing. */
  lemma DefaultBoundsSumToOneIffNoneMissing(arr: Series, mask: Option<Mask>)
    requires TimeInRange(arr, mask, DefaultLow, DefaultHigh).Ok? && TimeInRange(arr, mask, DefaultLow, DefaultHigh).value.Ratio?
    ensures TimeBelowRange(arr, mask, DefaultLow).Ok? && TimeBelowRange(arr, mask, DefaultLow).value.Ratio?
    ensures TimeAboveRange(arr, mask, DefaultHigh).Ok? && TimeAboveRange(arr, mask, DefaultHigh).value.Ratio?
    ensures TimeInRange(arr, mask, DefaultLow, DefaultHigh).value.Value() + TimeBelowRange(arr, mask, DefaultLow).value.Value()
              + TimeAboveRange(arr, mask, DefaultHigh).value.Value() == 1.0
            <==> forall i :: 0 <= i < |arr| && IsUsed(mask, i) ==> arr[i].Finite?
  {
    FractionsSumToOneIffNoneMissing(arr, mask, DefaultLow, DefaultHigh);
  }

  /** When every used reading is missing, TIR is NaN but TBR and TAR are 0, not NaN. */
  lemma AllMissingGivesZeroNotNaN(arr: Series, mask: Option<Mask>, low: real, high: real)
    requires MaskFits(arr, mask)
    requires exists i :: 0 <= i < |arr| && IsUsed(mask, i)
    requires forall i :: 0 <= i < |arr| && IsUsed(mask, i) ==> arr[i].Missing?
    ensures TimeInRange(arr, mask, low, high) == Ok(NaN)
    ensures TimeBelowRange(arr, mask, low) == Ok(Ratio(0, |Used(arr, mask)|))
    ensures TimeAboveRange(arr, mask, high) == Ok(Ratio(0, |Used(arr, mask)|))
  {
    var i :| 0 <= i < |arr| && IsUsed(mask, i);
    assert i in Used(arr, mask);
    assert UsedFinite(arr, mask) == {};
    assert UsedBelow(arr, mask, low) == {};
    assert UsedAbove(arr, mask, high) == {};
  }
}
