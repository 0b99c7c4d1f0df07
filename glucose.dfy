/** Glucose readings, masks and trailing windows shared by the instability heuristics
    and the range metrics. */
module Glucose {

  /** One CGM sample: a finite value in mg/dL, or the missing-value marker (NaN).
      Every ordered comparison involving `Missing` is false. */
  datatype Reading = Finite(v: real) | Missing

  /** Errors the source raises instead of returning a value. */
  datatype Error =
    | EmptySeries         // indexing arr[0] of an empty array
    | MaskLengthMismatch  // "mask length must match glucose length"

  datatype Result<T> = Ok(value: T) | Err(error: Error)

  datatype Option<T> = None | Some(value: T)

  type Series = seq<Reading>
  type Mask = seq<bool>

  predicate AllFinite(w: Series)
  {
    forall p :: 0 <= p < |w| ==> w[p].Finite?
  }

  predicate AnyFinite(w: Series)
  {
    exists p :: 0 <= p < |w| && w[p].Finite?
  }

  /** The trailing window of `k` readings ending at index `i` (both ends inclusive). */
  function Window(arr: Series, k: nat, i: nat): (w: Series)
    requires k <= i + 1 <= |arr|
    ensures |w| == k
    ensures forall p :: 0 <= p < k ==> w[p] == arr[i - k + 1 + p]
  {
    arr[i - k + 1 .. i + 1]
  }

  /** A mask of `n` false entries (`np.zeros(n, dtype=bool)`). */
  function Zeros(n: nat): (m: Mask)
    ensures |m| == n && forall i :: 0 <= i < n ==> !m[i]
  {
    seq(n, _ => false)
  }

  function Max(a: int, b: int): int
  {
    if a < b then b else a
  }
}
