/**
 * The read-only collaborators the proof-of-work rules consult: the block
 * index (one record per accepted block, linked to its predecessor), the
 * chain parameters (`Params()`), the algorithm identifiers and the
 * fork-activation heights.
 *
 * The block index is an arena: a sequence of records in which a predecessor
 * link is the position of an earlier record, and `None` stands for the null
 * pointer before the genesis block. A reference to a block (`CBlockIndex*`)
 * is an `Option<nat>`.
 */
module ChainIndex {
  import opened UInt256

  datatype Option<T> = None | Some(value: T)

  /** Algorithm identifiers (`NUM_ALGOS` of them); GetAlgo() only ever yields these. */
  const NUM_ALGOS: nat := 3
  const ALGO_SHA256D: nat := 0
  const ALGO_SCRYPT: nat := 1
  const ALGO_X11: nat := 2

  type AlgoId = a: int | 0 <= a < NUM_ALGOS

  /** Network identities (`CBaseChainParams::Network`). */
  const MAIN: int := 0
  const TESTNET: int := 1
  const REGTEST: int := 2

  /** One `CBlockIndex`: the fields the retarget rules read. */
  datatype BlockIndex = BlockIndex(
    height: nat,
    time: Uint32,          // nTime, read through GetBlockTime()
    medianTimePast: int,   // GetMedianTimePast(), computed elsewhere
    bits: Uint32,          // nBits
    algo: AlgoId,          // GetAlgo()
    prev: Option<nat>)     // pprev

  type Chain = seq<BlockIndex>

  /** Every predecessor link points to an earlier record, so every backward walk ends. */
  predicate Linked(chain: Chain)
  {
    forall i :: 0 <= i < |chain| && chain[i].prev.Some? ==> chain[i].prev.value < i
  }

  /** A block reference: null, or a record of the chain. */
  predicate IsRef(chain: Chain, r: Option<nat>)
  {
    r.Some? ==> r.value < |chain|
  }

  /**
   * Heights agree with the links: only a height-0 record lacks a predecessor,
   * and a predecessor sits exactly one height below.
   */
  predicate Consistent(chain: Chain)
  {
    && Linked(chain)
    && (forall i :: 0 <= i < |chain| ==> (chain[i].prev.None? <==> chain[i].height == 0))
    && (forall i :: 0 <= i < |chain| && chain[i].prev.Some? ==>
          chain[chain[i].prev.value].height + 1 == chain[i].height)
  }

  /**
   * The record reached from `from` by following `pprev` `steps` times; the walk
   * stops at null (`for (i = 0; p && i < steps; i++) p = p->pprev;`).
   */
  function Ancestor(chain: Chain, from: Option<nat>, steps: nat): (r: Option<nat>)
    requires Linked(chain) && IsRef(chain, from)
    ensures IsRef(chain, r)
    ensures r.Some? ==> from.Some? && r.value <= from.value
    decreases steps
  {
    if steps == 0 || from.None? then from
    else Ancestor(chain, chain[from.value].prev, steps - 1)
  }

  /**
   * On a consistent chain a walk of `steps` links from a block at height h
   * finds a record exactly when steps <= h, and that record sits at h - steps.
   */
  lemma {:induction false} AncestorOnConsistentChain(chain: Chain, i: nat, steps: nat)
    requires Consistent(chain) && i < |chain|
    ensures var r := Ancestor(chain, Some(i), steps);
      && (r.Some? <==> steps <= chain[i].height)
      && (r.Some? ==> chain[r.value].height == chain[i].height - steps)
  {
    if steps > 0 {
      match chain[i].prev
      case None =>
      case Some(j) =>
        AncestorOnConsistentChain(chain, j, steps - 1);
    }
  }

  /**
   * GetLastBlockIndexForAlgo (defined outside src/pow.cpp): the nearest record,
   * starting with `from` itself and walking back, mined with `algo`; null
   * when the walk reaches the start of the chain first.
   */
  function LastBlockForAlgo(chain: Chain, from: Option<nat>, algo: AlgoId): (r: Option<nat>)
    requires Linked(chain) && IsRef(chain, from)
    ensures IsRef(chain, r)
    ensures r.Some? ==> from.Some? && r.value <= from.value && chain[r.value].algo == algo
    ensures from.Some? && chain[from.value].algo == algo ==> r == from
    decreases if from.Some? then from.value + 1 else 0
  {
    if from.None? then None
    else if chain[from.value].algo == algo then from
    else LastBlockForAlgo(chain, chain[from.value].prev, algo)
  }

  /**
   * The lookup returns `from` or one of its ancestors: on a consistent chain
   * walking back by the height difference reaches the record it returned,
   * and no record between the two was mined with `algo`, so it is the
   * nearest such record.
   */
  lemma {:induction false} LastBlockForAlgoIsAncestor(chain: Chain, i: nat, algo: AlgoId)
    requires Consistent(chain) && i < |chain|
    ensures var r := LastBlockForAlgo(chain, Some(i), algo);
      r.Some? ==>
        && chain[r.value].height <= chain[i].height
        && Ancestor(chain, Some(i), chain[i].height - chain[r.value].height) == r
        && forall s :: 0 <= s < chain[i].height - chain[r.value].height ==>
             var a := Ancestor(chain, Some(i), s); a.Some? && chain[a.value].algo != algo
  {
    if chain[i].algo != algo {
      match chain[i].prev
      case None =>
      case Some(j) =>
        LastBlockForAlgoIsAncestor(chain, j, algo);
        var r := LastBlockForAlgo(chain, Some(i), algo);
        if r.Some? {
          forall s | 0 <= s < chain[i].height - chain[r.value].height
            ensures var a := Ancestor(chain, Some(i), s); a.Some? && chain[a.value].algo != algo
          {
            if s > 0 {
              assert Ancestor(chain, Some(i), s) == Ancestor(chain, Some(j), s - 1);
            }
          }
        }
    }
  }

  /**
   * Fork-activation heights (defined outside src/pow.cpp as compile-time
   * constants; their values are not part of this model).
   */
  datatype ForkHeights = ForkHeights(
    v3Fork: int,
    diffSwitchHeight: int,
    inflationFixHeight: int,
    diff2SwitchHeight: int)

  /** The network parameters `Params()` supplies, plus the fork heights. */
  datatype ChainParams = ChainParams(
    networkId: int,
    powLimit: seq<Uint256>,     // ProofOfWorkLimit(algo), one per algorithm
    targetTimespan: int,
    targetSpacing: int,
    allowMinDifficultyBlocks: bool,
    forks: ForkHeights)

  /** One limit per algorithm and positive timing parameters. */
  predicate ValidParams(p: ChainParams)
  {
    |p.powLimit| == NUM_ALGOS && p.targetTimespan > 0 && p.targetSpacing > 0
  }

  function ProofOfWorkLimit(p: ChainParams, algo: AlgoId): Uint256
    requires ValidParams(p)
  {
    p.powLimit[algo]
  }
}
