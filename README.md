# DillNet scan engine and index logic, in Dafny

This project models the parts of `dillnet/dillnet.py` (the DillNet hybrid
Retention / Mamba network) that are index logic rather than floating-point
arithmetic, and proves properties of them.

- **Affine** (`affine.dfy`) defines the scan element `(A, Bu)` of one lane and
  `binary_operator`. The element is a pair of reals that stands for the
  affine update `h ↦ A·h + Bu`, and the operator is `Combine`. It also defines
  the reference semantics: the left fold `Fold` of a range of steps, and the
  sequential recurrence `h_t = A_t·h_{t-1} + Bu_t` with `h_{-1} = 0` (`Run`,
  `States`).
- **Scan** (`scan.dfy`) models `associative_scan`.
  - Each up-sweep and down-sweep round is a function on the sequence of
    elements, built from the same slices as the source.
  - The two loops are methods: `UpSweep` and `AssociativeScan`. Their loop
    invariants relate the working sequence to the specification functions
    `UpRounds` and `ScanResult`.
  - The up-sweep is proved to be an inclusive (Hillis–Steele) scan.
  - `DownRound`'s contract gives the effect of each down-sweep round. The
    lemmas state positions 0 and 1 of the result for every L, and the whole
    result for L = 2.
- **Retention** (`retention.dfy`) models the clamped distance matrix
  `diff[i][j] = max(i − j, 0)` that the per-head decay is built from.
- **Rotary** (`rotary.dfy`) models the rotate-half permutation
  `stack((−x2, x1)).flatten` and the concatenated angle columns of
  `RotaryEmbedding.forward`.
- **ScanLayout** (`layout.dfy`) models the permute/view around the scan in
  `MambaBlock.selective_scan`, which maps `(B, T, D, N)` to `(T, B·D, N)` and
  back.
- **Network** (`network.dfy`) models the choice of mixer per block in
  `DillNet.__init__` and the automatic `dt_rank` of `MambaBlock`.

Every axis other than time is handled elementwise by the scan, so the scan is
modelled on one lane of reals. Tensors are nested sequences, and the state axis
`N` travels inside the element type of `ScanLayout`. The source's tensors are
immutable values here: a round builds a new sequence, as `torch.cat` builds a
new tensor. The caller's input therefore cannot change, and the `clone()` at
the start of `associative_scan` has nothing left to protect.

Where the intent and the code disagree, the model follows the code.
`MambaBlock.selective_scan` (`dillnet/dillnet.py:167-172`) uses the Bu parts
of the scan's result, `ys`, as the hidden states of the recurrence
`h_t = A_t·h_{t-1} + Bu_t`. The code's down-sweep combines prefixes that
overlap, so for every `L ≥ 2` the result differs from `h_k` at position 1
whenever `A_1·A_0·Bu_0 ≠ 0` (see Findings).

## Model

| member | source | states |
|---|---|---|
| Affine.CombineComposes | dillnet/dillnet.py:76-79 | Combine, the model of binary_operator, maps (p, q) to (q.a*p.a, q.bu + q.a*p.bu); it acts on a state as p's update followed by q's: affine composition with the earlier step first |
| Affine.SameActionSamePair | dillnet/dillnet.py:76-79 | two scan pairs that give the same state from every state are equal, so pairs are exactly affine maps |
| Affine.CombineAssociative | dillnet/dillnet.py:76-79 | binary_operator is associative |
| Affine.CombineIdentity | dillnet/dillnet.py:76-79 | (1, 0) is a two-sided identity of binary_operator |
| Affine.CombineNotCommutative | dillnet/dillnet.py:76-79 | binary_operator is not commutative, so the order along time matters |
| Affine.FoldSingle | dillnet/dillnet.py:76-79 | the fold of the one step k is step k itself |
| Affine.FoldSplit | dillnet/dillnet.py:76-79 | the fold of steps lo..hi-1 is the fold of lo..mid-1 combined with the fold of mid..hi-1, for every split point |
| Affine.RunSnoc | dillnet/dillnet.py:76-79 | running the recurrence over steps followed by x is x applied to the state the steps reach |
| Affine.FoldRuns | dillnet/dillnet.py:76-79 | the fold of the first n steps, applied to a state h, gives the state the recurrence reaches from h after those steps |
| Affine.PrefixFoldIsState | dillnet/dillnet.py:76-79 | the Bu part of the fold of steps 0..k is the hidden state h_k started from h_{-1} = 0 |
| Scan.UpRound | dillnet/dillnet.py:91-96 | an up-sweep round with stride s (binary_operator applied slice by slice, CombineEach) keeps the length, leaves positions below s unchanged, and sets every k >= s to binary_operator(old[k-s], old[k]) from values before the round |
| Scan.DownRound | dillnet/dillnet.py:102-107 | a down-sweep round with stride s (binary_operator applied slice by slice, CombineEach) keeps the length, is a no-op when 2s-1 >= L, leaves positions below 2s-1 unchanged, and sets every k >= 2s-1 to binary_operator(old[k-s], old[k]) |
| Scan.DownSweep | dillnet/dillnet.py:100-109 | the down-sweep rounds for strides s, s/2, ..., 1 keep the length |
| Scan.PrefixesMatchRecurrence | dillnet/dillnet.py:89-98 | the Bu part of every inclusive prefix is the hidden state h_k of the recurrence |
| Scan.NextPow2 | dillnet/dillnet.py:89-98 | the stride after the up-sweep is a power of two that is at least L and whose half is below L (or it is 1) |
| Scan.NextPow2Unique | dillnet/dillnet.py:89-98 | any power of two p with p/2 < L <= p is that stride, so the doubling loop stops at the smallest power of two >= L |
| Scan.WindowsAtStart | dillnet/dillnet.py:89 | before the first round, position k covers step k alone |
| Scan.UpRoundWidensWindows | dillnet/dillnet.py:91-98 | after the round with stride s, position k holds the fold of steps max(0, k-2s+1)..k (the Hillis-Steele invariant) |
| Scan.WindowsCoverPrefixes | dillnet/dillnet.py:90 | once the stride reaches L every position holds the fold of steps 0..k |
| Scan.UpRounds | dillnet/dillnet.py:90-98 | the up-sweep rounds that remain from stride s on keep the length |
| Scan.UpStride | dillnet/dillnet.py:90-98 | the stride at which the doubling loop stops is at least L and at least the current stride |
| Scan.UpRoundsFromWindows | dillnet/dillnet.py:90-98 | when every position covers its window for stride s, the remaining rounds leave the inclusive prefixes |
| Scan.UpStrideIsNextPow2 | dillnet/dillnet.py:89-98 | doubling from a power of two s with s/2 < L stops at the smallest power of two >= L |
| Scan.UpSweepSpec | dillnet/dillnet.py:89-98 | the whole up-sweep leaves the inclusive prefixes, whose Bu parts are h_k, and the final stride is the smallest power of two >= L |
| Scan.UpSweep | dillnet/dillnet.py:89-98 | the up-sweep loop computes exactly the rounds UpRounds and the stride UpStride, so by UpSweepSpec it leaves the inclusive prefixes and the smallest power of two >= L |
| Scan.ScanResult | dillnet/dillnet.py:82-111 | the result of associative_scan has the length of its input |
| Scan.DownSweepKeepsFirst | dillnet/dillnet.py:100-109 | no down-sweep round changes position 0 |
| Scan.DownSweepSecond | dillnet/dillnet.py:100-109 | the down-sweep from any stride >= 1 ends with position 1 = binary_operator(old[0], old[1]): only its final stride-1 round touches it |
| Scan.FirstDownRoundIdle | dillnet/dillnet.py:99-101 | for L >= 2 the down-sweep starts at a stride >= 1, and its first round is a no-op exactly when L is not a power of two |
| Scan.PrefixesOfTwo | dillnet/dillnet.py:89-98 | after the up-sweep, position 0 is step 0 and position 1 is step 0 combined with step 1 |
| Scan.ScanKeepsFirst | dillnet/dillnet.py:82-111 | position 0 of the result is always input element 0 |
| Scan.ScanSecond | dillnet/dillnet.py:82-111 | for every L >= 2, position 1 of the result is step 0 combined with the prefix of steps 0..1, so Bu[1] = A1*A0*Bu0 + A1*Bu0 + Bu1 |
| Scan.ScanOfTwo | dillnet/dillnet.py:82-111 | the complete result for L = 2 |
| Scan.ScanMissesRecurrence | dillnet/dillnet.py:100-109 | for L >= 2, Bu[1] of the result equals h_1 if and only if A1*A0*Bu0 = 0 |
| Scan.ScanDivergesAtEveryLength | dillnet/dillnet.py:100-109 | for every L >= 2 there is an input with h_1 = 1 on which the scan returns Bu[1] = 2 |
| Scan.AssociativeScan | dillnet/dillnet.py:82-111 | associative_scan returns a copy for L <= 1, otherwise the down-sweep applied to the up-sweep's prefixes; position 0 is input 0 and position 1 counts step 0 twice |
| Scan.InclusiveScan | dillnet/dillnet.py:89-98 | the scan without the down-sweep returns the inclusive prefixes, whose Bu parts are exactly the recurrence h_k |
| Retention.DecayDistance | dillnet/dillnet.py:63-64 | diff is T x T, never negative, 0 exactly when i <= j, and i - j when i > j |
| Retention.ClampMin0 | dillnet/dillnet.py:64 | clamp(min=0) gives the larger of x and 0: a result that is at least 0 and at least x, and is one of the two |
| Retention.FutureKeysUndamped | dillnet/dillnet.py:63-65 | a key in the query's future gets distance 0, the same undamped weight as the query's own position |
| Retention.DistancePair | dillnet/dillnet.py:64 | diff[i][j] + diff[j][i] = abs(i - j), diff[i][j] - diff[j][i] = i - j, and one of the two is 0 |
| Retention.DistanceShiftInvariant | dillnet/dillnet.py:64 | the distance depends only on i - j |
| Retention.DistanceBounds | dillnet/dillnet.py:64 | the distance is at most T - 1 and grows by one per step further into the past |
| Rotary.StackFlattenSplits | dillnet/dillnet.py:34-36 | StackFlatten, the model of stack((u, v), dim=-1).flatten(-2), interleaves u and v: Evens and Odds, the models of x[..., ::2] and x[..., 1::2], give back u and v |
| Rotary.EvensOddsInterleave | dillnet/dillnet.py:34-36 | for an even number of features the split into x[..., ::2] and x[..., 1::2] loses nothing: interleaving them again gives back x |
| Rotary.RotateHalfPairs | dillnet/dillnet.py:34-36 | RotateHalf, the model of x_rot, is defined exactly for an even dim, keeps the length, and maps each pair (x[2m], x[2m+1]) to (-x[2m+1], x[2m]) (RotateHalfShape and RotateHalfPair state the same per pair for the proofs below) |
| Rotary.QuarterTurnTwice | dillnet/dillnet.py:36 | turning every pair by a quarter turn twice negates the vector |
| Rotary.RotateHalfTwice | dillnet/dillnet.py:34-36 | applying rotate-half twice gives -x |
| Rotary.QuarterTurnDots | dillnet/dillnet.py:36 | a vector whose pairs are the quarter-turned pairs of x is orthogonal to x and has its squared length |
| Rotary.RotateHalfIsRotation | dillnet/dillnet.py:34-36 | the rotated vector is orthogonal to x and has the same squared length |
| Rotary.AngleFrequency | dillnet/dillnet.py:31 | column c of the concatenated angles uses frequency c mod dim/2 |
| Rotary.PairAnglesAgreeOnlyForDim2 | dillnet/dillnet.py:31-36 | the two features of a rotate-half pair get the same frequency only when dim = 2 |
| ScanLayout.LaneIndexSplits | dillnet/dillnet.py:164-165 | lane b*D + d lies below B*D, and b and d are recovered from it by division and remainder |
| ScanLayout.LaneIndexCovers | dillnet/dillnet.py:164-165 | every lane below B*D is the lane of some (b, d) with b < B and d < D, so the lane map is a bijection |
| ScanLayout.SwapLeadingAxesTwice | dillnet/dillnet.py:161 | permute(1, 0, ...) applied twice gives back the tensor |
| ScanLayout.MergeRow | dillnet/dillnet.py:164 | the view to B*D lanes puts (b, d) at lane b*D + d |
| ScanLayout.MergeSplitRow | dillnet/dillnet.py:164-169 | viewing B*D lanes as a (B, D) grid and back gives the same lanes |
| ScanLayout.SplitMergeRow | dillnet/dillnet.py:164-169 | viewing a (B, D) grid as B*D lanes and back gives the same grid |
| ScanLayout.Flatten | dillnet/dillnet.py:161-165 | the flatten before the scan has shape (T, B*D) |
| ScanLayout.FlattenMoves | dillnet/dillnet.py:161-165 | the flatten takes element (b, t, d) to (t, b*D + d) |
| ScanLayout.Unflatten | dillnet/dillnet.py:169-170 | the unflatten after the scan has shape (B, T, D) |
| ScanLayout.UnflattenMoves | dillnet/dillnet.py:169-170 | the unflatten takes element (t, b*D + d) to (b, t, d) |
| ScanLayout.UnflattenFlatten | dillnet/dillnet.py:161-170 | unflatten(flatten(x)) = x |
| ScanLayout.FlattenUnflatten | dillnet/dillnet.py:161-170 | flatten(unflatten(z)) = z |
| Network.MixersAlternate | dillnet/dillnet.py:210-213 | Mixers, the model of the comprehension that builds the blocks, gives depth blocks whose first is a Retention block, and neighbouring blocks never share a mixer |
| Network.MambaCount | dillnet/dillnet.py:210-213 | of the depth blocks Mixers builds, depth/2 are Mamba blocks (i % 2 != 0) and the rest Retention blocks |
| Network.DtRank | dillnet/dillnet.py:119 | an explicit dt_rank is kept; 'auto' gives the smallest r with 16r >= embed_dim, i.e. ceil(embed_dim/16) |
| Network.DtRankAutoBounds | dillnet/dillnet.py:119 | the automatic rank lies between 1 and embed_dim for every positive embed_dim |

## Left out

- Floating point is not modelled. Reals stand for tensor values. Everything
  numeric that surrounds the index logic is left out: linear layers, `conv1d`
  and its padding, RMSNorm's `rsqrt`, `exp`, `sigmoid`, `softplus`, SiLU,
  `cos`/`sin`, matmuls, the score weighting and the sum over the state axis.
  These are floating-point computations or calls into torch.
- The scan is modelled on one lane. Every other axis is handled elementwise
  and independently, and `ScanLayout` models how the lanes are laid out.
- Tensors are values. The model therefore does not capture `clone()`,
  `contiguous()`, storage sharing between views, or aliasing.
- Torch's view of an empty tensor with `-1` is not modelled (it cannot infer
  the size when `T = 0`). `ScanLayout` passes `B·D` explicitly.
- Network.DtRank: computes the exact integer ceiling. It does not model
  `math.ceil(embed_dim / 16)` rounding through a float for widths beyond 2^53.
- The norm preservation of the rotary encoding is trigonometry and is not
  modelled. `Rotary.PairAnglesAgreeOnlyForDim2` states the index fact it
  would depend on.
- Dropout, gradient checkpointing, `torch.jit.script`, parameter
  registration, devices and dtypes are left out. They belong to randomness,
  the autodiff engine or framework plumbing.

## Findings

| source | as written | input that shows it | evidently intended | confidence | as-written member | corrected member |
|---|---|---|---|---|---|---|
| dillnet/dillnet.py:100-109 | after the up-sweep has already left the inclusive prefixes, the down-sweep combines position k-s with position k for k >= 2s-1; the stride-1 round always runs for L >= 2, so prefix 0 is composed into prefix 1 a second time | L = 2, A = (1, 1), Bu = (1, 0): h_1 = 1, but the scan returns Bu[1] = 2 | Bu[k] of the result equals the recurrence h_k with h_{-1} = 0 | high, not executed | Scan.ScanMissesRecurrence | Scan.InclusiveScan |
