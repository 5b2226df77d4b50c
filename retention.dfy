/**
 * The index logic of Retention.forward in dillnet/dillnet.py: the matrix of
 * clamped time distances that the per-head decay exp(-gamma * diff) is built
 * from. The exponential itself is floating point and is not modelled.
 */
module Retention {

  /** Tensor.clamp(min=0) on an integer: the larger of x and 0. */
  function ClampMin0(x: int): (r: int)
    ensures r >= 0 && r >= x
    ensures r == 0 || r == x
  {
    if x < 0 then 0 else x
  }

  /**
   * diff = (idx.unsqueeze(1) - idx.unsqueeze(0)).clamp(min=0) for idx = 0..T-1:
   * row i is the query position, column j the key position.
   */
  function DecayDistance(T: nat): (diff: seq<seq<int>>)
    ensures |diff| == T
    ensures forall i :: 0 <= i < T ==> |diff[i]| == T
    ensures forall i, j :: 0 <= i < T && 0 <= j < T ==>
      diff[i][j] >= 0 && (diff[i][j] == 0 <==> i <= j) && (i > j ==> diff[i][j] == i - j)
  {
    var diff := seq(T, i requires 0 <= i < T => DistanceRow(T, i));
    assert forall i :: 0 <= i < T ==> diff[i] == DistanceRow(T, i);
    diff
  }

  /** Row i of the distance matrix: the clamped distances from query i to every key. */
  function DistanceRow(T: nat, i: nat): (row: seq<int>)
    ensures |row| == T
    ensures forall j :: 0 <= j < T ==> row[j] == ClampMin0(i - j)
  {
    seq(T, j requires 0 <= j < T => ClampMin0(i - j))
  }

  /**
   * A key in the future of the query gets distance 0, the same as the key at
   * the query's own position: it is weighted, not masked.
   */
  lemma FutureKeysUndamped(T: nat, i: nat, j: nat)
    requires i < T && j < T && i <= j
    ensures DecayDistance(T)[i][j] == DecayDistance(T)[i][i] == 0
  {
  }

  /**
   * The two clamped distances between a pair of positions add up to their
   * absolute distance and differ by their signed distance, so at most one of
   * them is not 0.
   */
  lemma DistancePair(T: nat, i: nat, j: nat)
    requires i < T && j < T
    ensures var diff := DecayDistance(T);
      diff[i][j] + diff[j][i] == (if i < j then j - i else i - j) &&
      diff[i][j] - diff[j][i] == i - j &&
      (diff[i][j] == 0 || diff[j][i] == 0)
  {
  }

  /** The distance depends only on i - j: shifting both positions keeps it. */
  lemma DistanceShiftInvariant(T: nat, i: nat, j: nat)
    requires i + 1 < T && j + 1 < T
    ensures DecayDistance(T)[i + 1][j + 1] == DecayDistance(T)[i][j]
  {
  }

  /** The distance grows by one per step further into the past, and never exceeds T - 1. */
  lemma DistanceBounds(T: nat, i: nat, j: nat)
    requires i < T && j < T
    ensures DecayDistance(T)[i][j] <= T - 1
    ensures j >= 1 && i >= j ==> DecayDistance(T)[i][j - 1] == DecayDistance(T)[i][j] + 1
  {
  }
}
