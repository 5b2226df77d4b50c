/**
 * The tensor layout around the scan in MambaBlock.selective_scan of
 * dillnet/dillnet.py. deltaA and deltaB_u have shape (B, T, D, N); they are
 * permuted to (T, B, D, N) and viewed as (T, B*D, N), so that the scan runs
 * along the leading time axis of B*D*N independent lanes; the scanned states
 * are viewed back as (T, B, D, N) and permuted to (B, T, D, N).
 *
 * A tensor is a nested sequence. The trailing state axis N is never touched
 * by these operations, so it travels inside the element type X: element
 * (b, t, d) of a tensor here is the whole length-N row x[b, t, d, :].
 */
module ScanLayout {

  /** The lane that batch b and channel d share after the view: b * D + d. */
  function LaneIndex(b: nat, d: nat, D: nat): nat
  {
    b * D + d
  }

  /** a * D <= c * D when a <= c. */
  lemma MulMonotonic(a: nat, c: nat, D: nat)
    requires a <= c
    ensures a * D <= c * D
  {
    assert c * D == a * D + (c - a) * D;
  }

  /** Every (b, d) with b < B and d < D names a lane below B * D, and (b, d) is recovered from it. */
  lemma LaneIndexSplits(b: nat, d: nat, B: nat, D: nat)
    requires b < B && d < D
    ensures LaneIndex(b, d, D) < B * D
    ensures LaneIndex(b, d, D) / D == b && LaneIndex(b, d, D) % D == d
  {
    var c := LaneIndex(b, d, D);
    MulMonotonic(b + 1, B, D);
    assert c < (b + 1) * D;
    var q, r := c / D, c % D;
    assert c == q * D + r && 0 <= r < D;
    if q < b {
      MulMonotonic(q + 1, b, D);
      assert false;
    } else if q > b {
      MulMonotonic(b + 1, q, D);
      assert false;
    }
  }

  /** Every lane c below B * D is the lane of batch c / D and channel c % D. */
  lemma LaneIndexCovers(c: nat, B: nat, D: nat)
    requires c < B * D
    ensures D > 0 && c / D < B && LaneIndex(c / D, c % D, D) == c
  {
    if c / D >= B {
      MulMonotonic(B, c / D, D);
      assert false;
    }
  }

  /** x has shape (n0, n1, n2) over elements of type X. */
  ghost predicate Shape3<X>(x: seq<seq<seq<X>>>, n0: nat, n1: nat, n2: nat)
  {
    |x| == n0 &&
    forall i :: 0 <= i < n0 ==> |x[i]| == n1 && forall j :: 0 <= j < n1 ==> |x[i][j]| == n2
  }

  /** x has shape (n0, n1) over elements of type X. */
  ghost predicate Shape2<X>(x: seq<seq<X>>, n0: nat, n1: nat)
  {
    |x| == n0 && forall i :: 0 <= i < n0 ==> |x[i]| == n1
  }

  /** permute(1, 0, ...): swap the two leading axes of a tensor of shape (n0, n1, ...). */
  function SwapLeadingAxes<X>(x: seq<seq<X>>, n0: nat, n1: nat): (y: seq<seq<X>>)
    requires Shape2(x, n0, n1)
    ensures Shape2(y, n1, n0)
    ensures forall j, i :: 0 <= j < n1 && 0 <= i < n0 ==> y[j][i] == x[i][j]
  {
    var y := seq(n1, j requires 0 <= j < n1 => seq(n0, i requires 0 <= i < n0 => x[i][j]));
    assert forall j :: 0 <= j < n1 ==> |y[j]| == n0;
    y
  }

  /** Swapping the leading axes twice gives back the tensor. */
  lemma SwapLeadingAxesTwice<X>(x: seq<seq<X>>, n0: nat, n1: nat)
    requires Shape2(x, n0, n1)
    ensures SwapLeadingAxes(SwapLeadingAxes(x, n0, n1), n1, n0) == x
  {
    var z := SwapLeadingAxes(SwapLeadingAxes(x, n0, n1), n1, n0);
    forall i | 0 <= i < n0 ensures z[i] == x[i] {
    }
  }

  /** One time step of view(T, B * D, ...): the (B, D) grid of rows laid out lane by lane. */
  function MergeRow<X>(row: seq<seq<X>>, B: nat, D: nat): (lanes: seq<X>)
    requires Shape2(row, B, D)
    ensures |lanes| == B * D
    ensures forall b, d :: 0 <= b < B && 0 <= d < D ==>
      LaneIndex(b, d, D) < B * D && lanes[LaneIndex(b, d, D)] == row[b][d]
  {
    var lanes := seq(B * D, c requires 0 <= c < B * D => LaneIndexCovers(c, B, D); row[c / D][c % D]);
    forall b, d | 0 <= b < B && 0 <= d < D
      ensures LaneIndex(b, d, D) < B * D && lanes[LaneIndex(b, d, D)] == row[b][d]
    {
      LaneIndexSplits(b, d, B, D);
    }
    lanes
  }

  /** One time step of view(T, B, D, ...): the lanes cut back into a (B, D) grid. */
  function SplitRow<X>(lanes: seq<X>, B: nat, D: nat): (row: seq<seq<X>>)
    requires |lanes| == B * D
    ensures Shape2(row, B, D)
    ensures forall b, d :: 0 <= b < B && 0 <= d < D ==>
      LaneIndex(b, d, D) < B * D && row[b][d] == lanes[LaneIndex(b, d, D)]
  {
    var row := seq(B, b requires 0 <= b < B =>
      seq(D, d requires 0 <= d < D => LaneIndexSplits(b, d, B, D); lanes[LaneIndex(b, d, D)]));
    assert forall b :: 0 <= b < B ==> |row[b]| == D;
    forall b, d | 0 <= b < B && 0 <= d < D
      ensures LaneIndex(b, d, D) < B * D && row[b][d] == lanes[LaneIndex(b, d, D)]
    {
      LaneIndexSplits(b, d, B, D);
    }
    row
  }

  /** Viewing the lanes as a (B, D) grid and back gives the same lanes. */
  lemma MergeSplitRow<X>(lanes: seq<X>, B: nat, D: nat)
    requires |lanes| == B * D
    ensures MergeRow(SplitRow(lanes, B, D), B, D) == lanes
  {
    var r := MergeRow(SplitRow(lanes, B, D), B, D);
    forall c | 0 <= c < B * D ensures r[c] == lanes[c] {
      LaneIndexCovers(c, B, D);
    }
  }

  /** Viewing a (B, D) grid as lanes and back gives the same grid. */
  lemma SplitMergeRow<X>(row: seq<seq<X>>, B: nat, D: nat)
    requires Shape2(row, B, D)
    ensures SplitRow(MergeRow(row, B, D), B, D) == row
  {
    var r := SplitRow(MergeRow(row, B, D), B, D);
    forall b | 0 <= b < B ensures r[b] == row[b] {
    }
  }

  /**
   * The flatten before the scan (dillnet/dillnet.py:161-165):
   * permute(1, 0, 2, 3).contiguous().view(T, -1, N).
   */
  function Flatten<X>(x: seq<seq<seq<X>>>, B: nat, T: nat, D: nat): (z: seq<seq<X>>)
    requires Shape3(x, B, T, D)
    ensures Shape2(z, T, B * D)
  {
    var y := SwapLeadingAxes(x, B, T);
    assert forall t, b :: 0 <= t < T && 0 <= b < B ==> y[t][b] == x[b][t];
    seq(T, t requires 0 <= t < T => MergeRow(y[t], B, D))
  }

  /** Flatten takes element (b, t, d) to (t, b * D + d). */
  lemma FlattenMoves<X>(x: seq<seq<seq<X>>>, B: nat, T: nat, D: nat, b: nat, t: nat, d: nat)
    requires Shape3(x, B, T, D) && b < B && t < T && d < D
    ensures LaneIndex(b, d, D) < B * D
    ensures Flatten(x, B, T, D)[t][LaneIndex(b, d, D)] == x[b][t][d]
  {
    var y := SwapLeadingAxes(x, B, T);
    assert Flatten(x, B, T, D)[t] == MergeRow(y[t], B, D);
  }

  /**
   * The unflatten after the scan (dillnet/dillnet.py:169-170):
   * view(T, B, D, N).permute(1, 0, 2, 3).
   */
  function Unflatten<X>(z: seq<seq<X>>, B: nat, T: nat, D: nat): (x: seq<seq<seq<X>>>)
    requires Shape2(z, T, B * D)
    ensures Shape3(x, B, T, D)
  {
    var y := seq(T, t requires 0 <= t < T => SplitRow(z[t], B, D));
    var x := SwapLeadingAxes(y, T, B);
    assert forall b, t :: 0 <= b < B && 0 <= t < T ==> x[b][t] == y[t][b];
    x
  }

  /** Unflatten takes element (t, b * D + d) to (b, t, d). */
  lemma UnflattenMoves<X>(z: seq<seq<X>>, B: nat, T: nat, D: nat, b: nat, t: nat, d: nat)
    requires Shape2(z, T, B * D) && b < B && t < T && d < D
    ensures LaneIndex(b, d, D) < B * D
    ensures Unflatten(z, B, T, D)[b][t][d] == z[t][LaneIndex(b, d, D)]
  {
    var y := seq(T, t requires 0 <= t < T => SplitRow(z[t], B, D));
    assert Unflatten(z, B, T, D)[b][t] == y[t][b] == SplitRow(z[t], B, D)[b];
  }

  /** Unflatten undoes Flatten: every element returns to (b, t, d). */
  lemma UnflattenFlatten<X>(x: seq<seq<seq<X>>>, B: nat, T: nat, D: nat)
    requires Shape3(x, B, T, D)
    ensures Unflatten(Flatten(x, B, T, D), B, T, D) == x
  {
    var r := Unflatten(Flatten(x, B, T, D), B, T, D);
    forall b | 0 <= b < B ensures r[b] == x[b] {
      forall t | 0 <= t < T ensures r[b][t] == x[b][t] {
        forall d | 0 <= d < D ensures r[b][t][d] == x[b][t][d] {
          UnflattenMoves(Flatten(x, B, T, D), B, T, D, b, t, d);
          FlattenMoves(x, B, T, D, b, t, d);
        }
      }
    }
  }

  /** Flatten undoes Unflatten: every lane c is (c / D, c % D) and comes back to c. */
  lemma FlattenUnflatten<X>(z: seq<seq<X>>, B: nat, T: nat, D: nat)
    requires Shape2(z, T, B * D)
    ensures Flatten(Unflatten(z, B, T, D), B, T, D) == z
  {
    var r := Flatten(Unflatten(z, B, T, D), B, T, D);
    forall t | 0 <= t < T ensures r[t] == z[t] {
      forall c | 0 <= c < B * D ensures r[t][c] == z[t][c] {
        LaneIndexCovers(c, B, D);
        FlattenMoves(Unflatten(z, B, T, D), B, T, D, c / D, t, c % D);
        UnflattenMoves(z, B, T, D, c / D, t, c % D);
      }
    }
  }
}
