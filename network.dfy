/**
 * Construction-time index logic of dillnet/dillnet.py: which mixer each
 * DillNetBlock gets (DillNet.__init__) and the automatic dt_rank of a
 * MambaBlock.
 */
module Network {

  /** The two sequence mixers a block can hold. */
  datatype Mixer = RetentionMixer | MambaMixer

  /** Block i uses the Mamba mixer exactly when i % 2 != 0. */
  function MixerAt(i: nat): Mixer
  {
    if i % 2 != 0 then MambaMixer else RetentionMixer
  }

  /** The mixers of the depth stacked blocks, in order. */
  function Mixers(depth: nat): (ms: seq<Mixer>)
    ensures |ms| == depth
    ensures forall i :: 0 <= i < depth ==> (ms[i] == RetentionMixer <==> i % 2 == 0)
  {
    seq(depth, i requires 0 <= i < depth => MixerAt(i))
  }

  /** Neighbouring blocks never share a mixer, and the first block is a Retention block. */
  lemma MixersAlternate(depth: nat)
    ensures depth >= 1 ==> Mixers(depth)[0] == RetentionMixer
    ensures forall i :: 0 <= i < depth - 1 ==> Mixers(depth)[i] != Mixers(depth)[i + 1]
  {
  }

  /** The number of Mamba blocks in ms. */
  function CountMamba(ms: seq<Mixer>): nat
  {
    if ms == [] then 0 else CountMamba(ms[..|ms| - 1]) + (if ms[|ms| - 1] == MambaMixer then 1 else 0)
  }

  /** Of depth blocks, depth / 2 are Mamba blocks and the other (depth + 1) / 2 are Retention blocks. */
  lemma {:induction false} MambaCount(depth: nat)
    ensures CountMamba(Mixers(depth)) == depth / 2
  {
    if depth > 0 {
      MambaCount(depth - 1);
      assert Mixers(depth)[..depth - 1] == Mixers(depth - 1);
    }
  }

  /** MambaBlock's dt_rank argument: the string 'auto' or an explicit rank. */
  datatype DtRankSetting = Auto | Fixed(rank: nat)

  /**
   * math.ceil(embed_dim / 16) for 'auto', otherwise the given rank. The
   * result is the smallest rank r with 16 * r >= embed_dim.
   */
  function DtRank(embedDim: nat, setting: DtRankSetting): (r: nat)
    ensures setting.Fixed? ==> r == setting.rank
    ensures setting.Auto? ==> embedDim <= 16 * r < embedDim + 16
  {
    match setting
    case Auto => (embedDim + 15) / 16
    case Fixed(rank) => rank
  }

  /** The automatic rank is positive for any positive width, and at most the width. */
  lemma DtRankAutoBounds(embedDim: nat)
    requires embedDim >= 1
    ensures 1 <= DtRank(embedDim, Auto) <= embedDim
  {
  }
}
