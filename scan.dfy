/**
 * associative_scan of dillnet/dillnet.py, on one lane.
 *
 * The source copies its input, then runs two loops over the time axis. The
 * up-sweep pairs position k with position k - stride for stride = 1, 2, 4, ...
 * while stride < L. The down-sweep halves the stride each round and pairs
 * position k with position k - stride for every k >= 2 * stride - 1. Each round
 * builds new arrays from slices of the old ones, so every position of a round
 * reads values from before that round.
 *
 * The up-sweep alone is an inclusive (Hillis-Steele) scan: afterwards position
 * k holds the composition of steps 0..k. The down-sweep then composes prefixes
 * that already overlap, so the final result is not the recurrence
 * h_t = A_t * h_{t-1} + Bu_t; ScanMissesRecurrence states where it differs and
 * InclusiveScan is the scan with the intended result.
 */
module Scan {
  import opened Affine

  /** binary_operator applied position by position to two slices of equal length. */
  function CombineEach(ps: seq<Pair>, qs: seq<Pair>): seq<Pair>
    requires |ps| == |qs|
  {
    seq(|ps|, i requires 0 <= i < |ps| => Combine(ps[i], qs[i]))
  }

  /**
   * One up-sweep round with stride s: cat(x[:s], op(x[:-s], x[s:])).
   * Slices past the end are empty, so a stride of L or more changes nothing.
   */
  function UpRound(xs: seq<Pair>, s: nat): (r: seq<Pair>)
    requires s >= 1
    ensures |r| == |xs|
    ensures forall k {:trigger r[k]} :: 0 <= k < |xs| && k < s ==> r[k] == xs[k]
    ensures forall k {:trigger r[k]} :: s <= k < |xs| ==> r[k] == Combine(xs[k - s], xs[k])
  {
    if s >= |xs| then xs
    else xs[..s] + CombineEach(xs[..|xs| - s], xs[s..])
  }

  /**
   * One down-sweep round with stride s: cat(x[:2s-1], op(x[s-1:-s], x[2s-1:])).
   * The two slices both have max(0, L - 2s + 1) elements; when that is 0 the
   * round changes nothing.
   */
  function DownRound(xs: seq<Pair>, s: nat): (r: seq<Pair>)
    requires s >= 1
    ensures |r| == |xs|
    ensures 2 * s - 1 >= |xs| ==> r == xs
    ensures forall k {:trigger r[k]} :: 0 <= k < |xs| && k < 2 * s - 1 ==> r[k] == xs[k]
    ensures forall k {:trigger r[k]} :: 2 * s - 1 <= k < |xs| ==> r[k] == Combine(xs[k - s], xs[k])
  {
    if 2 * s - 1 >= |xs| then xs
    else xs[..2 * s - 1] + CombineEach(xs[s - 1..|xs| - s], xs[2 * s - 1..])
  }

  /** The down-sweep rounds with strides s, s/2, ..., 1, applied in that order. */
  function DownSweep(xs: seq<Pair>, s: nat): (r: seq<Pair>)
    ensures |r| == |xs|
    decreases s
  {
    if s == 0 then xs else DownSweep(DownRound(xs, s), s / 2)
  }

  /** The inclusive prefixes: position k holds the fold of steps 0..k. */
  function Prefixes(elems: seq<Pair>): (r: seq<Pair>)
    ensures |r| == |elems|
  {
    seq(|elems|, k requires 0 <= k < |elems| => Fold(elems, 0, k + 1))
  }

  /** The Bu parts of the inclusive prefixes are the hidden states of the recurrence. */
  lemma PrefixesMatchRecurrence(elems: seq<Pair>)
    ensures forall k :: 0 <= k < |elems| ==> Prefixes(elems)[k].bu == States(elems)[k]
  {
    forall k | 0 <= k < |elems| ensures Prefixes(elems)[k].bu == States(elems)[k] {
      PrefixFoldIsState(elems, k);
    }
  }

  // ---------------------------------------------------------------------------
  // Strides

  /** p is a power of two. */
  predicate IsPow2(p: nat)
  {
    p == 1 || (p >= 2 && p % 2 == 0 && IsPow2(p / 2))
  }

  /** The smallest power of two that is at least n. */
  function NextPow2(n: nat): (p: nat)
    ensures IsPow2(p) && n <= p
    ensures p == 1 || p / 2 < n
  {
    if n <= 1 then 1 else 2 * NextPow2((n + 1) / 2)
  }

  /** A power of two p with p/2 < n <= p is the smallest power of two that is at least n. */
  lemma {:induction false} NextPow2Unique(n: nat, p: nat)
    requires IsPow2(p) && n <= p
    requires p == 1 || p / 2 < n
    ensures p == NextPow2(n)
    decreases p
  {
    if p != 1 {
      var q := p / 2;
      assert IsPow2(q) && p == 2 * q;
      assert (n + 1) / 2 <= q;
      if q != 1 {
        assert q % 2 == 0;
        assert q / 2 < (n + 1) / 2;
      }
      NextPow2Unique((n + 1) / 2, q);
    }
  }

  // ---------------------------------------------------------------------------
  // The up-sweep

  /** The first position of the window of steps that position k covers before the round with stride s. */
  function WindowStart(k: nat, s: nat): nat
  {
    if k + 1 <= s then 0 else k + 1 - s
  }

  /** Before the round with stride s, position k holds the fold of steps max(0, k - s + 1)..k. */
  ghost predicate Windows(elems: seq<Pair>, xs: seq<Pair>, s: nat)
  {
    |xs| == |elems| &&
    forall k :: 0 <= k < |xs| ==> xs[k] == Fold(elems, WindowStart(k, s), k + 1)
  }

  /** Before any round, position k holds step k alone. */
  lemma WindowsAtStart(elems: seq<Pair>)
    ensures Windows(elems, elems, 1)
  {
    forall k | 0 <= k < |elems| ensures elems[k] == Fold(elems, WindowStart(k, 1), k + 1) {
      FoldSingle(elems, k);
    }
  }

  /** An up-sweep round with stride s doubles every window: the Hillis-Steele invariant. */
  lemma UpRoundWidensWindows(elems: seq<Pair>, xs: seq<Pair>, s: nat)
    requires s >= 1 && Windows(elems, xs, s)
    ensures Windows(elems, UpRound(xs, s), 2 * s)
  {
    var r := UpRound(xs, s);
    forall k | 0 <= k < |r| ensures r[k] == Fold(elems, WindowStart(k, 2 * s), k + 1) {
      if k >= s {
        FoldSplit(elems, WindowStart(k - s, s), WindowStart(k, s), k + 1);
      }
    }
  }

  /** Once the stride reaches L every window starts at step 0. */
  lemma WindowsCoverPrefixes(elems: seq<Pair>, xs: seq<Pair>, s: nat)
    requires Windows(elems, xs, s) && |elems| <= s
    ensures xs == Prefixes(elems)
  {
    forall k | 0 <= k < |xs| ensures xs[k] == Prefixes(elems)[k] {
      assert WindowStart(k, s) == 0;
    }
  }

  /** The up-sweep rounds that remain from stride s on: one per doubling of s while s < L. */
  function UpRounds(xs: seq<Pair>, s: nat): (r: seq<Pair>)
    requires s >= 1
    ensures |r| == |xs|
    decreases |xs| - s
  {
    if s >= |xs| then xs else UpRounds(UpRound(xs, s), 2 * s)
  }

  /** The stride the up-sweep loop stops at when it is at stride s now. */
  function UpStride(n: nat, s: nat): (p: nat)
    requires s >= 1
    ensures p >= n && p >= s
    decreases n - s
  {
    if s >= n then s else UpStride(n, 2 * s)
  }

  /** When position k covers the window of stride s, the remaining rounds leave the inclusive prefixes. */
  lemma {:induction false} UpRoundsFromWindows(elems: seq<Pair>, xs: seq<Pair>, s: nat)
    requires s >= 1 && Windows(elems, xs, s)
    ensures UpRounds(xs, s) == Prefixes(elems)
    decreases |xs| - s
  {
    if s >= |xs| {
      WindowsCoverPrefixes(elems, xs, s);
    } else {
      UpRoundWidensWindows(elems, xs, s);
      UpRoundsFromWindows(elems, UpRound(xs, s), 2 * s);
    }
  }

  /** From a power of two s with s / 2 < n, doubling stops at the smallest power of two that is at least n. */
  lemma {:induction false} UpStrideIsNextPow2(n: nat, s: nat)
    requires IsPow2(s) && (s == 1 || s / 2 < n)
    ensures UpStride(n, s) == NextPow2(n)
    decreases n - s
  {
    if s >= n {
      NextPow2Unique(n, s);
    } else {
      assert (2 * s) / 2 == s && (2 * s) % 2 == 0;
      UpStrideIsNextPow2(n, 2 * s);
    }
  }

  /**
   * The whole up-sweep leaves the inclusive prefixes, whose Bu parts are the
   * hidden states, and the smallest power of two that is at least L.
   */
  lemma UpSweepSpec(elems: seq<Pair>, xs: seq<Pair>, s: nat)
    requires xs == UpRounds(elems, 1) && s == UpStride(|elems|, 1)
    ensures xs == Prefixes(elems)
    ensures forall k :: 0 <= k < |elems| ==> xs[k].bu == States(elems)[k]
    ensures s == NextPow2(|elems|)
  {
    WindowsAtStart(elems);
    UpRoundsFromWindows(elems, elems, 1);
    UpStrideIsNextPow2(|elems|, 1);
    PrefixesMatchRecurrence(elems);
  }

  /**
   * The first loop of associative_scan (dillnet/dillnet.py:89-98): it runs the
   * up-sweep rounds and stops at the stride UpStride; by UpSweepSpec it leaves
   * the inclusive prefixes and the smallest power of two that is at least L.
   */
  method UpSweep(elems: seq<Pair>) returns (scanned: seq<Pair>, stride: nat)
    ensures scanned == UpRounds(elems, 1)
    ensures stride == UpStride(|elems|, 1)
  {
    scanned, stride := elems, 1;
    while stride < |elems|
      invariant stride >= 1 && |scanned| == |elems|
      invariant UpRounds(scanned, stride) == UpRounds(elems, 1)
      invariant UpStride(|elems|, stride) == UpStride(|elems|, 1)
    {
      scanned := UpRound(scanned, stride);
      stride := stride * 2;
    }
  }

  // ---------------------------------------------------------------------------
  // The whole scan as the source writes it

  /** What associative_scan returns: a copy when L <= 1, otherwise the down-sweep applied to the prefixes. */
  function ScanResult(elems: seq<Pair>): (r: seq<Pair>)
    ensures |r| == |elems|
  {
    if |elems| <= 1 then elems else DownSweep(Prefixes(elems), NextPow2(|elems|) / 2)
  }

  /** Position 0 is never touched by a down-sweep round. */
  lemma {:induction false} DownSweepKeepsFirst(xs: seq<Pair>, s: nat)
    requires |xs| >= 1
    ensures DownSweep(xs, s)[0] == xs[0]
    decreases s
  {
    if s != 0 {
      DownSweepKeepsFirst(DownRound(xs, s), s / 2);
    }
  }

  /**
   * Every chain of halved strides ends with the round of stride 1, which
   * replaces position 1 by the combination of positions 0 and 1; the earlier
   * rounds leave both untouched.
   */
  lemma {:induction false} DownSweepSecond(xs: seq<Pair>, s: nat)
    requires |xs| >= 2 && s >= 1
    ensures DownSweep(xs, s)[1] == Combine(xs[0], xs[1])
    decreases s
  {
    var r := DownRound(xs, s);
    if s == 1 {
      assert DownSweep(xs, s) == DownSweep(r, 0) == r;
    } else {
      assert r[0] == xs[0] && r[1] == xs[1];
      DownSweepSecond(r, s / 2);
    }
  }

  /** For L >= 2 the first down-sweep round changes nothing exactly when L is not a power of two. */
  lemma FirstDownRoundIdle(elems: seq<Pair>)
    requires |elems| >= 2
    ensures var s := NextPow2(|elems|) / 2;
      s >= 1 && (2 * s - 1 >= |elems| <==> NextPow2(|elems|) != |elems|)
  {
    var p := NextPow2(|elems|);
    assert p != 1;
    assert p % 2 == 0;
  }

  /** The first two inclusive prefixes. */
  lemma PrefixesOfTwo(elems: seq<Pair>)
    requires |elems| >= 2
    ensures Prefixes(elems)[0] == elems[0]
    ensures Prefixes(elems)[1] == Combine(elems[0], elems[1])
  {
    FoldSingle(elems, 0);
    FoldSingle(elems, 1);
    FoldSplit(elems, 0, 1, 2);
  }

  /** The scan keeps step 0 in position 0. */
  lemma ScanKeepsFirst(elems: seq<Pair>)
    requires |elems| >= 1
    ensures ScanResult(elems)[0] == elems[0]
  {
    if |elems| >= 2 {
      DownSweepKeepsFirst(Prefixes(elems), NextPow2(|elems|) / 2);
      FoldSingle(elems, 0);
    }
  }

  /**
   * For every L >= 2, position 1 of the result is step 0 composed with the
   * prefix of steps 0..1, so step 0 is counted twice.
   */
  lemma ScanSecond(elems: seq<Pair>)
    requires |elems| >= 2
    ensures ScanResult(elems)[1] == Combine(elems[0], Combine(elems[0], elems[1]))
    ensures ScanResult(elems)[1].bu
         == elems[1].a * elems[0].a * elems[0].bu + elems[1].a * elems[0].bu + elems[1].bu
  {
    var p := NextPow2(|elems|);
    assert p != 1;
    DownSweepSecond(Prefixes(elems), p / 2);
    PrefixesOfTwo(elems);
  }

  /** The whole result for L = 2. */
  lemma ScanOfTwo(x0: Pair, x1: Pair)
    ensures ScanResult([x0, x1]) == [x0, Combine(x0, Combine(x0, x1))]
  {
    ScanKeepsFirst([x0, x1]);
    ScanSecond([x0, x1]);
  }

  /**
   * For L >= 2 position 1 of the result agrees with the hidden state h_1 if
   * and only if A_1 * A_0 * Bu_0 == 0.
   */
  lemma ScanMissesRecurrence(elems: seq<Pair>)
    requires |elems| >= 2
    ensures ScanResult(elems)[1].bu == States(elems)[1]
        <==> elems[1].a * elems[0].a * elems[0].bu == 0.0
  {
    ScanSecond(elems);
    PrefixFoldIsState(elems, 1);
    PrefixesOfTwo(elems);
  }

  /** A = 1 everywhere, Bu = 1 at step 0 and 0 after it: the hidden states are all 1. */
  function DivergingInput(n: nat): (elems: seq<Pair>)
    ensures |elems| == n
  {
    seq(n, i requires 0 <= i < n => if i == 0 then Pair(1.0, 1.0) else Pair(1.0, 0.0))
  }

  /** For every length L >= 2 the scan returns Bu[1] = 2 on DivergingInput, where h_1 = 1. */
  lemma ScanDivergesAtEveryLength(n: nat)
    requires n >= 2
    ensures ScanResult(DivergingInput(n))[1].bu == 2.0
    ensures States(DivergingInput(n))[1] == 1.0
  {
    var elems := DivergingInput(n);
    var x0, x1 := elems[0], elems[1];
    assert x0 == Pair(1.0, 1.0) && x1 == Pair(1.0, 0.0);
    ScanSecond(elems);
    assert ScanResult(elems)[1] == Combine(x0, Combine(x0, x1));
    PrefixFoldIsState(elems, 1);
    FoldSplit(elems, 0, 1, 2);
    FoldSingle(elems, 0);
    FoldSingle(elems, 1);
    assert States(elems)[1] == Combine(x0, x1).bu;
  }

  /**
   * associative_scan (dillnet/dillnet.py:82-111): copy the input, return the
   * copy when L <= 1, otherwise run the up-sweep and then the down-sweep.
   */
  method AssociativeScan(elems: seq<Pair>) returns (scanned: seq<Pair>)
    ensures scanned == ScanResult(elems)
    ensures |scanned| == |elems|
    ensures |elems| <= 1 ==> scanned == elems
    ensures |elems| >= 1 ==> scanned[0] == elems[0]
    ensures |elems| >= 2 ==> scanned[1] == Combine(elems[0], Combine(elems[0], elems[1]))
  {
    scanned := elems;
    var numElems := |scanned|;
    if numElems <= 1 {
      return;
    }
    var stride;
    scanned, stride := UpSweep(scanned);
    UpSweepSpec(elems, scanned, stride);
    stride := stride / 2;
    while stride > 0
      invariant |scanned| == numElems
      invariant DownSweep(scanned, stride) == ScanResult(elems)
    {
      scanned := DownRound(scanned, stride);
      stride := stride / 2;
    }
    ScanKeepsFirst(elems);
    ScanSecond(elems);
  }

  /**
   * The scan with the intended result: the copy for L <= 1 and the up-sweep
   * alone, which already leaves the inclusive prefixes.
   */
  method InclusiveScan(elems: seq<Pair>) returns (scanned: seq<Pair>)
    ensures scanned == Prefixes(elems)
    ensures forall k :: 0 <= k < |elems| ==> scanned[k].bu == States(elems)[k]
  {
    scanned := elems;
    if |scanned| <= 1 {
      if |elems| == 1 {
        FoldSingle(elems, 0);
      }
      PrefixesMatchRecurrence(elems);
      return;
    }
    var stride;
    scanned, stride := UpSweep(scanned);
    UpSweepSpec(elems, scanned, stride);
  }
}
