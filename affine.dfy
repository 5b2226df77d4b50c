/**
 * The scan element of the selective state-space mixer and the operator that
 * combines two of them (binary_operator in dillnet/dillnet.py).
 *
 * All work on the axes other than time is elementwise, so the model follows a
 * single lane: one scan element is a pair (a, bu) of reals standing for the
 * affine update h |-> a * h + bu of one time step.
 */
module Affine {

  /** One time step of one lane: the update h |-> a * h + bu. */
  datatype Pair = Pair(a: real, bu: real)

  /** The update that changes nothing, h |-> h. */
  const Identity: Pair := Pair(1.0, 0.0)

  /** The state reached by applying the update p to the state h. */
  function Apply(p: Pair, h: real): real
  {
    p.a * h + p.bu
  }

  /**
   * binary_operator((A_i, Bu_i), (A_j, Bu_j)) = (A_j * A_i, Bu_j + A_j * Bu_i):
   * the update p followed by the update q.
   */
  function Combine(p: Pair, q: Pair): Pair
  {
    Pair(q.a * p.a, q.bu + q.a * p.bu)
  }

  /** Combine(p, q) acts on a state as p followed by q: composition of affine maps. */
  lemma CombineComposes(p: Pair, q: Pair, h: real)
    ensures Apply(Combine(p, q), h) == Apply(q, Apply(p, h))
  {
  }

  /** Two pairs that act alike on every state are the same pair. */
  lemma SameActionSamePair(p: Pair, q: Pair)
    requires forall h :: Apply(p, h) == Apply(q, h)
    ensures p == q
  {
    assert Apply(p, 0.0) == Apply(q, 0.0);
    assert Apply(p, 1.0) == Apply(q, 1.0);
  }

  /** binary_operator is associative, because composition of maps is. */
  lemma CombineAssociative(p: Pair, q: Pair, r: Pair)
    ensures Combine(Combine(p, q), r) == Combine(p, Combine(q, r))
  {
    var left, right := Combine(Combine(p, q), r), Combine(p, Combine(q, r));
    forall h ensures Apply(left, h) == Apply(right, h) {
      CombineComposes(Combine(p, q), r, h);
      CombineComposes(p, q, h);
      CombineComposes(q, r, Apply(p, h));
      CombineComposes(p, Combine(q, r), h);
    }
    SameActionSamePair(left, right);
  }

  /** (1, 0) is a two-sided identity of binary_operator. */
  lemma CombineIdentity(p: Pair)
    ensures Combine(Identity, p) == p
    ensures Combine(p, Identity) == p
  {
  }

  /** The order of the two operands matters. */
  lemma CombineNotCommutative()
    ensures exists p, q :: Combine(p, q) != Combine(q, p)
  {
    var p, q := Pair(1.0, 1.0), Pair(2.0, 0.0);
    assert Combine(p, q).bu == 2.0;
    assert Combine(q, p).bu == 1.0;
  }

  /**
   * The left fold of binary_operator over steps lo..hi-1 of xs: all of those
   * updates, earliest first (the identity when the range is empty).
   */
  function Fold(xs: seq<Pair>, lo: nat, hi: nat): Pair
    requires lo <= hi <= |xs|
    decreases hi - lo
  {
    if lo == hi then Identity else Combine(Fold(xs, lo, hi - 1), xs[hi - 1])
  }

  /** The sequential recurrence h_t = a_t * h_{t-1} + bu_t, run from the state h. */
  function Run(xs: seq<Pair>, h: real): real
  {
    if xs == [] then h else Run(xs[1..], Apply(xs[0], h))
  }

  /**
   * The hidden states h_0 .. h_{L-1} of the recurrence started at h_{-1} = 0:
   * what a step-by-step loop over time would produce.
   */
  function States(xs: seq<Pair>): (hs: seq<real>)
    ensures |hs| == |xs|
  {
    seq(|xs|, k requires 0 <= k < |xs| => Run(xs[..k + 1], 0.0))
  }

  /** A range of one step folds to that step. */
  lemma FoldSingle(xs: seq<Pair>, k: nat)
    requires k < |xs|
    ensures Fold(xs, k, k + 1) == xs[k]
  {
    CombineIdentity(xs[k]);
  }

  /** Splitting a range of steps at mid splits its fold the same way. */
  lemma {:induction false} FoldSplit(xs: seq<Pair>, lo: nat, mid: nat, hi: nat)
    requires lo <= mid <= hi <= |xs|
    ensures Fold(xs, lo, hi) == Combine(Fold(xs, lo, mid), Fold(xs, mid, hi))
    decreases hi - mid
  {
    if mid == hi {
      CombineIdentity(Fold(xs, lo, mid));
    } else {
      FoldSplit(xs, lo, mid, hi - 1);
      CombineAssociative(Fold(xs, lo, mid), Fold(xs, mid, hi - 1), xs[hi - 1]);
    }
  }

  /** Running the recurrence over xs and then one more step. */
  lemma {:induction false} RunSnoc(xs: seq<Pair>, x: Pair, h: real)
    ensures Run(xs + [x], h) == Apply(x, Run(xs, h))
    decreases |xs|
  {
    if xs == [] {
      assert [] + [x] == [x];
      assert [x][1..] == [];
    } else {
      assert (xs + [x])[1..] == xs[1..] + [x];
      RunSnoc(xs[1..], x, Apply(xs[0], h));
    }
  }

  /**
   * The fold of the first n updates, applied to a state, is the sequential
   * recurrence run over them from that state: the fold computes exactly the
   * recurrence.
   */
  lemma {:induction false} FoldRuns(xs: seq<Pair>, n: nat, h: real)
    requires n <= |xs|
    ensures Apply(Fold(xs, 0, n), h) == Run(xs[..n], h)
  {
    if n == 0 {
      assert xs[..0] == [];
    } else {
      FoldRuns(xs, n - 1, h);
      CombineComposes(Fold(xs, 0, n - 1), xs[n - 1], h);
      assert xs[..n] == xs[..n - 1] + [xs[n - 1]];
      RunSnoc(xs[..n - 1], xs[n - 1], h);
    }
  }

  /** In particular the Bu part of the fold of steps 0..k is the hidden state h_k. */
  lemma PrefixFoldIsState(xs: seq<Pair>, k: nat)
    requires k < |xs|
    ensures Fold(xs, 0, k + 1).bu == States(xs)[k]
  {
    FoldRuns(xs, k + 1, 0.0);
  }
}
