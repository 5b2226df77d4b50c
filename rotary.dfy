/**
 * The index logic of RotaryEmbedding.forward in dillnet/dillnet.py: the
 * "rotate-half" vector built from the even- and odd-indexed features, and the
 * frequency each feature column's angle is taken from. The cos/sin products
 * themselves are floating-point trigonometry and are not modelled.
 */
module Rotary {

  datatype Option<T> = None | Some(value: T)

  /** x[..., ::2]: the features at even positions. */
  function Evens(x: seq<real>): (r: seq<real>)
    ensures |r| == (|x| + 1) / 2
    ensures forall m :: 0 <= m < |r| ==> r[m] == x[2 * m]
  {
    seq((|x| + 1) / 2, m requires 0 <= m < (|x| + 1) / 2 => x[2 * m])
  }

  /** x[..., 1::2]: the features at odd positions. */
  function Odds(x: seq<real>): (r: seq<real>)
    ensures |r| == |x| / 2
    ensures forall m :: 0 <= m < |r| ==> r[m] == x[2 * m + 1]
  {
    seq(|x| / 2, m requires 0 <= m < |x| / 2 => x[2 * m + 1])
  }

  /** Elementwise negation. */
  function Negate(x: seq<real>): (r: seq<real>)
    ensures |r| == |x|
  {
    seq(|x|, i requires 0 <= i < |x| => -x[i])
  }

  /**
   * torch.stack((u, v), dim=-1).flatten(-2): u and v interleaved. torch.stack
   * refuses operands of different lengths, which is None here.
   */
  function StackFlatten(u: seq<real>, v: seq<real>): (r: Option<seq<real>>)
    ensures r.Some? <==> |u| == |v|
    ensures r.Some? ==> |r.value| == 2 * |u|
    ensures r.Some? ==> forall i :: 0 <= i < 2 * |u| ==>
      r.value[i] == if i % 2 == 0 then u[i / 2] else v[i / 2]
  {
    if |u| != |v| then None
    else Some(seq(2 * |u|, i requires 0 <= i < 2 * |u| => if i % 2 == 0 then u[i / 2] else v[i / 2]))
  }

  /** Taking the even and the odd positions of the interleaving gives back u and v. */
  lemma StackFlattenSplits(u: seq<real>, v: seq<real>)
    requires |u| == |v|
    ensures StackFlatten(u, v).Some?
    ensures Evens(StackFlatten(u, v).value) == u && Odds(StackFlatten(u, v).value) == v
  {
    var w := StackFlatten(u, v).value;
    forall m | 0 <= m < |u| ensures Evens(w)[m] == u[m] && Odds(w)[m] == v[m] {
      assert (2 * m) % 2 == 0 && (2 * m) / 2 == m;
      assert (2 * m + 1) % 2 == 1 && (2 * m + 1) / 2 == m;
    }
  }

  /** For an even number of features, interleaving the even and the odd positions gives back x. */
  lemma EvensOddsInterleave(x: seq<real>)
    requires |x| % 2 == 0
    ensures StackFlatten(Evens(x), Odds(x)) == Some(x)
  {
    assert |Evens(x)| == |Odds(x)| == |x| / 2;
    var w := StackFlatten(Evens(x), Odds(x)).value;
    assert |w| == |x|;
    forall i | 0 <= i < |x| ensures w[i] == x[i] {
      if i % 2 == 0 {
        assert w[i] == Evens(x)[i / 2];
        assert 2 * (i / 2) == i;
      } else {
        assert w[i] == Odds(x)[i / 2];
        assert 2 * (i / 2) + 1 == i;
      }
    }
    assert w == x;
  }

  /** x_rot = torch.stack((-x2, x1), dim=-1).flatten(-2) with x1 = x[..., ::2] and x2 = x[..., 1::2]. */
  function RotateHalf(x: seq<real>): Option<seq<real>>
  {
    StackFlatten(Negate(Odds(x)), Evens(x))
  }

  /**
   * Rotate-half is defined exactly for an even number of features; it keeps
   * the length and turns each pair (x[2m], x[2m+1]) into (-x[2m+1], x[2m]).
   */
  lemma RotateHalfPairs(x: seq<real>)
    ensures RotateHalf(x).Some? <==> |x| % 2 == 0
    ensures RotateHalf(x).Some? ==> |RotateHalf(x).value| == |x|
    ensures RotateHalf(x).Some? ==> forall i :: 0 <= i < |x| ==>
      RotateHalf(x).value[i] == if i % 2 == 0 then -x[i + 1] else x[i - 1]
  {
  }

  /** Two quarter turns of the pairs of x, r and rr in a row give -x. */
  lemma QuarterTurnTwice(x: seq<real>, r: seq<real>, rr: seq<real>)
    requires |x| % 2 == 0 && |r| == |x| && |rr| == |x|
    requires forall k :: 0 <= k < |x| / 2 ==> r[2 * k] == -x[2 * k + 1] && r[2 * k + 1] == x[2 * k]
    requires forall k :: 0 <= k < |x| / 2 ==> rr[2 * k] == -r[2 * k + 1] && rr[2 * k + 1] == r[2 * k]
    ensures rr == Negate(x)
  {
    forall i | 0 <= i < |x| ensures rr[i] == -x[i] {
      var k := i / 2;
      assert rr[2 * k] == -r[2 * k + 1] && r[2 * k + 1] == x[2 * k];
      assert rr[2 * k + 1] == r[2 * k] && r[2 * k] == -x[2 * k + 1];
    }
  }

  /** Rotating by a quarter turn twice is negation. */
  lemma RotateHalfTwice(x: seq<real>)
    requires |x| % 2 == 0
    ensures RotateHalf(x).Some?
    ensures RotateHalf(RotateHalf(x).value) == Some(Negate(x))
  {
    RotateHalfShape(x);
    var r := RotateHalf(x).value;
    RotateHalfShape(r);
    var rr := RotateHalf(r).value;
    forall k | 0 <= k < |x| / 2
      ensures r[2 * k] == -x[2 * k + 1] && r[2 * k + 1] == x[2 * k]
      ensures rr[2 * k] == -r[2 * k + 1] && rr[2 * k + 1] == r[2 * k]
    {
      RotateHalfPair(x, k);
      RotateHalfPair(r, k);
    }
    QuarterTurnTwice(x, r, rr);
  }

  /** The dot product of the first n features of x and y. */
  function Dot(x: seq<real>, y: seq<real>, n: nat): real
    requires n <= |x| && n <= |y|
  {
    if n == 0 then 0.0 else Dot(x, y, n - 1) + x[n - 1] * y[n - 1]
  }

  /** For an even number of features rotate-half is defined and keeps the length. */
  lemma RotateHalfShape(x: seq<real>)
    requires |x| % 2 == 0
    ensures RotateHalf(x).Some? && |RotateHalf(x).value| == |x|
  {
  }

  /** Pair k of the rotated vector is (-x[2k+1], x[2k]). */
  lemma RotateHalfPair(x: seq<real>, k: nat)
    requires |x| % 2 == 0 && 2 * k + 1 < |x|
    ensures RotateHalf(x).Some? && |RotateHalf(x).value| == |x|
    ensures RotateHalf(x).value[2 * k] == -x[2 * k + 1]
    ensures RotateHalf(x).value[2 * k + 1] == x[2 * k]
  {
    RotateHalfShape(x);
    var w := RotateHalf(x).value;
    assert (2 * k) % 2 == 0 && (2 * k) / 2 == k;
    assert (2 * k + 1) % 2 == 1 && (2 * k + 1) / 2 == k;
    assert w[2 * k] == Negate(Odds(x))[k];
    assert w[2 * k + 1] == Evens(x)[k];
  }

  /**
   * A vector r whose pairs are (-x[2k+1], x[2k]) over the first 2m features is
   * orthogonal to x there and has the same squared length there.
   */
  lemma {:induction false} QuarterTurnDots(x: seq<real>, r: seq<real>, m: nat)
    requires |r| == |x| && 2 * m <= |x|
    requires forall k :: 0 <= k < m ==> r[2 * k] == -x[2 * k + 1] && r[2 * k + 1] == x[2 * k]
    ensures Dot(x, r, 2 * m) == 0.0
    ensures Dot(r, r, 2 * m) == Dot(x, x, 2 * m)
  {
    if m > 0 {
      var k := m - 1;
      QuarterTurnDots(x, r, k);
      var a, b := x[2 * k], x[2 * k + 1];
      assert r[2 * k] == -b && r[2 * k + 1] == a;
      assert Dot(x, r, 2 * m) == Dot(x, r, 2 * k) + a * r[2 * k] + b * r[2 * k + 1];
      assert Dot(r, r, 2 * m) == Dot(r, r, 2 * k) + r[2 * k] * r[2 * k] + r[2 * k + 1] * r[2 * k + 1];
      assert Dot(x, x, 2 * m) == Dot(x, x, 2 * k) + a * a + b * b;
    }
  }

  /**
   * Rotate-half is a rotation: the rotated vector is orthogonal to the input
   * and has the same squared length.
   */
  lemma RotateHalfIsRotation(x: seq<real>)
    requires |x| % 2 == 0
    ensures RotateHalf(x).Some? && |RotateHalf(x).value| == |x|
    ensures Dot(x, RotateHalf(x).value, |x|) == 0.0
    ensures Dot(RotateHalf(x).value, RotateHalf(x).value, |x|) == Dot(x, x, |x|)
  {
    RotateHalfShape(x);
    var r := RotateHalf(x).value;
    var m := |x| / 2;
    forall k | 0 <= k < m ensures r[2 * k] == -x[2 * k + 1] && r[2 * k + 1] == x[2 * k] {
      RotateHalfPair(x, k);
    }
    QuarterTurnDots(x, r, m);
  }

  /**
   * emb = cat((freqs, freqs), dim=-1): column c of the angle row takes its
   * frequency from index c of the first half, or c - dim/2 of the second.
   */
  function AngleFrequency(c: nat, dim: nat): (f: nat)
    requires dim % 2 == 0 && c < dim
    ensures f < dim / 2
    ensures f == c % (dim / 2)
  {
    if c < dim / 2 then c else SecondHalfMod(c, dim / 2); c - dim / 2
  }

  /** An index c in [h, 2h) is c - h modulo h. */
  lemma SecondHalfMod(c: nat, h: nat)
    requires h <= c < 2 * h
    ensures c % h == c - h
  {
    var q, r := c / h, c % h;
    assert c == q * h + r && 0 <= r < h;
  }

  /**
   * The two features that rotate-half pairs up take their angles from the
   * same frequency only when dim == 2: with concatenated angles and
   * interleaved pairs, every wider head gives a pair two different angles.
   */
  lemma PairAnglesAgreeOnlyForDim2(dim: nat, m: nat)
    requires dim % 2 == 0 && dim >= 2 && m < dim / 2
    ensures AngleFrequency(2 * m, dim) == AngleFrequency(2 * m + 1, dim) <==> dim == 2
  {
    var h := dim / 2;
    if h >= 2 {
      if 2 * m < h && 2 * m + 1 < h {
      } else if 2 * m < h {
        assert 2 * m + 1 == h;
      } else {
        assert 2 * m + 1 - h < h;
      }
    }
  }
}
