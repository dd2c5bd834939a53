/**
 * Proof-of-work validation and difficulty retargeting of a three-algorithm
 * chain (src/pow.cpp): the minimum-work guard, the timestamp update, the
 * work increment, the retarget dispatcher with its legacy periodic (V1) and
 * multi-algorithm averaging (V2) algorithms, and the final hash check.
 *
 * Outcomes the C++ leaves undefined (a null dereference, a function that
 * falls off its end, a failed `assert`) are modelled as `Undefined(..)`.
 */
module Pow {
  import opened Arithmetic
  import opened UInt256
  import opened ChainIndex

  // ---------------------------------------------------------------------
  // Multi-algorithm retarget constants
  // ---------------------------------------------------------------------

  const MULTI_ALGO_TARGET_SPACING: int := 120
  const AVERAGING_INTERVAL: int := 10
  const AVERAGING_TARGET_TIMESPAN: int := AVERAGING_INTERVAL * MULTI_ALGO_TARGET_SPACING
  const MAX_ADJUST_DOWN: int := 40
  const MAX_ADJUST_UP: int := 20
  const LOCAL_DIFFICULTY_ADJUSTMENT: int := 40
  const MIN_ACTUAL_TIMESPAN: int := AVERAGING_TARGET_TIMESPAN * (100 - MAX_ADJUST_UP) / 100
  const MAX_ACTUAL_TIMESPAN: int := AVERAGING_TARGET_TIMESPAN * (100 + MAX_ADJUST_DOWN) / 100

  /** The fixed difficulty of the test network. */
  const TESTNET_FIXED_BITS: Uint32 := 0x1d13ffec

  /** Behaviour the C++ leaves undefined. */
  datatype Fault = NullDereference | MissingReturn | AssertionFailure

  /** A compact difficulty, or the undefined behaviour met on the way. */
  datatype Outcome = Ok(bits: Uint32) | Undefined(fault: Fault)

  function Min(a: int, b: int): int
  {
    if a <= b then a else b
  }

  function Max(a: int, b: int): int
  {
    if a >= b then a else b
  }

  // ---------------------------------------------------------------------
  // CheckMinWork
  // ---------------------------------------------------------------------

  /** Testnet's min-difficulty rule: reduced-difficulty blocks after twice the target spacing. */
  predicate MinDifficultyApplies(p: ChainParams, deltaTime: int)
  {
    p.allowMinDifficultyBlocks && deltaTime > p.targetSpacing * 2
  }

  /**
   * What the easing loop leaves in `bnResult`: while time remains and the
   * target is below `bnLimit`, quadruple it (wrapping like `uint256 *= 4`)
   * and spend four target timespans.
   */
  function Eased(target: Uint256, deltaTime: int, bnLimit: Uint256, timespan: int): (r: Uint256)
    requires timespan > 0
    ensures deltaTime <= 0 || bnLimit <= target ==> r == target
    ensures bnLimit * 4 <= TWO_256 ==> target <= r && (r == target || r < 4 * bnLimit)
    decreases if deltaTime > 0 then deltaTime else 0
  {
    if deltaTime > 0 && target < bnLimit then
      QuadrupleExact(target, bnLimit);
      Eased(Mul32(target, 4), deltaTime - timespan * 4, bnLimit, timespan)
    else
      target
  }

  function FourTo(k: nat): (r: nat)
    ensures r >= 1
  {
    if k == 0 then 1 else 4 * FourTo(k - 1)
  }

  /**
   * The easing is at most fourfold per four target timespans of elapsed
   * time, for every `bnLimit`: a wrapped quadrupling only gives less.
   */
  lemma {:induction false} EasedBounds(target: Uint256, deltaTime: int, bnLimit: Uint256, timespan: int, k: nat)
    requires timespan > 0
    requires deltaTime <= k * (4 * timespan)
    ensures Eased(target, deltaTime, bnLimit, timespan) <= target * FourTo(k)
    decreases if deltaTime > 0 then deltaTime else 0
  {
    MulLe(1, FourTo(k), target);
    if deltaTime > 0 && target < bnLimit {
      var next := Mul32(target, 4);
      Mul32Wraps(target, 4);
      assert next <= 4 * target;
      BudgetStep(deltaTime, timespan, k);
      EasedBounds(next, deltaTime - timespan * 4, bnLimit, timespan, k - 1);
      MulLe(next, 4 * target, FourTo(k - 1));
      FourToStep(target, k);
    }
  }

  lemma QuadrupleExact(target: Uint256, bnLimit: Uint256)
    ensures target < bnLimit && bnLimit * 4 <= TWO_256 ==> Mul32(target, 4) == 4 * target
  {
  }

  lemma BudgetStep(deltaTime: int, timespan: int, k: nat)
    requires timespan > 0 && 0 < deltaTime <= k * (4 * timespan)
    ensures k >= 1 && deltaTime - timespan * 4 <= (k - 1) * (4 * timespan)
  {
  }

  lemma FourToStep(target: nat, k: nat)
    requires k >= 1
    ensures (4 * target) * FourTo(k - 1) == target * FourTo(k)
  {
    MulAssoc(target, 4, FourTo(k - 1));
  }

  /**
   * The loosest target CheckMinWork accepts outside the min-difficulty rule:
   * the eased base target, capped at the scrypt proof-of-work limit.
   */
  function MinWorkBound(p: ChainParams, nBase: Uint32, deltaTime: int, bnLimit: Uint256): (r: Uint256)
    requires ValidParams(p)
    ensures r <= ProofOfWorkLimit(p, ALGO_SCRYPT)
    ensures deltaTime <= 0 ==>
      r == Min(DecodeCompact(nBase).value, ProofOfWorkLimit(p, ALGO_SCRYPT))
  {
    var eased := Eased(DecodeCompact(nBase).value, deltaTime, bnLimit, p.targetTimespan);
    if eased > ProofOfWorkLimit(p, ALGO_SCRYPT) then ProofOfWorkLimit(p, ALGO_SCRYPT) else eased
  }

  /**
   * True if `nBits` is no easier than the easiest work that could be required
   * `deltaTime` seconds after the minimum work was `nBase`. `bnLimit` is the
   * bound the loop and the min-difficulty rule compare against (an identifier
   * src/pow.cpp uses without declaring); the final cap is the scrypt limit.
   */
  method CheckMinWork(p: ChainParams, nBits: Uint32, nBase: Uint32, deltaTime: int, bnLimit: Uint256)
    returns (ok: bool)
    requires ValidParams(p)
    ensures DecodeCompact(nBits).overflow ==> !ok
    ensures !DecodeCompact(nBits).overflow && MinDifficultyApplies(p, deltaTime) ==>
      (ok <==> DecodeCompact(nBits).value <= bnLimit)
    ensures !DecodeCompact(nBits).overflow && !MinDifficultyApplies(p, deltaTime) ==>
      (ok <==> DecodeCompact(nBits).value <= MinWorkBound(p, nBase, deltaTime, bnLimit))
    ensures !DecodeCompact(nBits).overflow && !MinDifficultyApplies(p, deltaTime) && deltaTime <= 0 ==>
      (ok <==> DecodeCompact(nBits).value <= Min(DecodeCompact(nBase).value, ProofOfWorkLimit(p, ALGO_SCRYPT)))
  {
    var newBlock := DecodeCompact(nBits);
    if newBlock.overflow {
      return false;
    }
    var powLimit := ProofOfWorkLimit(p, ALGO_SCRYPT);
    if p.allowMinDifficultyBlocks && deltaTime > p.targetSpacing * 2 {
      return newBlock.value <= bnLimit;
    }
    var result: Uint256 := DecodeCompact(nBase).value;
    var remaining := deltaTime;
    while remaining > 0 && result < bnLimit
      invariant Eased(result, remaining, bnLimit, p.targetTimespan)
             == Eased(DecodeCompact(nBase).value, deltaTime, bnLimit, p.targetTimespan)
      decreases if remaining > 0 then remaining else 0
    {
      result := Mul32(result, 4);
      remaining := remaining - p.targetTimespan * 4;
    }
    if result > powLimit {
      result := powLimit;
    }
    ok := newBlock.value <= result;
  }

  // ---------------------------------------------------------------------
  // UpdateTime
  // ---------------------------------------------------------------------

  /** The mutable part of a candidate block header that UpdateTime touches. */
  class BlockHeader {
    var time: Uint32
    var bits: Uint32
    const algo: AlgoId

    constructor (time0: Uint32, bits0: Uint32, algo0: AlgoId)
      ensures time == time0 && bits == bits0 && algo == algo0
    {
      time, bits, algo := time0, bits0, algo0;
    }
  }

  /**
   * Sets the header time to the later of one second past the previous
   * block's median time past and the adjusted network time (stored into the
   * 32-bit field, hence modulo 2^32); on the test network the difficulty is
   * recomputed for the new time.
   */
  method UpdateTime(block: BlockHeader, p: ChainParams, chain: Chain, pindexPrev: nat, adjustedTime: int)
    requires ValidParams(p) && Linked(chain) && pindexPrev < |chain|
    modifies block
    ensures block.time == Max(chain[pindexPrev].medianTimePast + 1, adjustedTime) % TWO_32
    ensures Max(chain[pindexPrev].medianTimePast + 1, adjustedTime) < TWO_32 ==>
      block.time > chain[pindexPrev].medianTimePast && block.time >= adjustedTime
    ensures p.networkId == TESTNET ==> block.bits == TESTNET_FIXED_BITS
    ensures p.networkId != TESTNET ==> block.bits == old(block.bits)
  {
    block.time := Max(chain[pindexPrev].medianTimePast + 1, adjustedTime) % TWO_32;
    if p.networkId == TESTNET {
      var next := GetNextWorkRequired(p, chain, Some(pindexPrev), block.algo);
      block.bits := next.bits;
    }
  }

  // ---------------------------------------------------------------------
  // GetProofIncrement
  // ---------------------------------------------------------------------

  /** (2^256 - d) / d + 1 == 2^256 / d: the identity the work computation relies on. */
  lemma WorkIdentity(t: nat)
    requires t + 1 < TWO_256
    ensures Complement(t) / (t + 1) + 1 == TWO_256 / (t + 1)
  {
    var d := t + 1;
    var q, r := (TWO_256 - d) / d, (TWO_256 - d) % d;
    assert TWO_256 - d == q * d + r;
    assert TWO_256 == (q + 1) * d + r;
    DivModUnique(TWO_256, d, q + 1, r);
  }

  /** For a nonzero target the work is at least one and fits in 256 bits. */
  lemma WorkInRange(t: nat)
    requires 0 < t && t + 1 < TWO_256
    ensures 0 < TWO_256 / (t + 1) <= TWO_256 / 2
  {
    DivAtLeast(TWO_256, 1, t + 1);
    DivAntitone(TWO_256, 2, t + 1);
  }

  /**
   * The work a block with target `nBits` adds to its chain: floor(2^256 /
   * (target + 1)), computed without representing 2^256; zero for a negative,
   * overflowing or zero target.
   */
  function GetProofIncrement(nBits: Uint32): (r: Uint256)
    ensures var d := DecodeCompact(nBits);
      && (r == 0 <==> d.negative || d.overflow || d.value == 0)
      && (!(d.negative || d.overflow || d.value == 0) ==> r == TWO_256 / (d.value + 1))
  {
    var target := DecodeCompact(nBits);
    if target.negative || target.overflow || target.value == 0 then
      0
    else
      var t: nat := target.value;
      DecodeBelowMax(nBits);
      WorkIdentity(t);
      WorkInRange(t);
      (Complement(t) / (t + 1)) + 1
  }

  /** A harder (numerically smaller) target never earns less work. */
  lemma ProofIncrementAntitone(harder: Uint32, easier: Uint32)
    requires var h := DecodeCompact(harder); !h.negative && !h.overflow && h.value != 0
    requires var e := DecodeCompact(easier); !e.negative && !e.overflow
    requires DecodeCompact(harder).value <= DecodeCompact(easier).value
    ensures GetProofIncrement(harder) >= GetProofIncrement(easier)
  {
    var h, e := DecodeCompact(harder).value, DecodeCompact(easier).value;
    DivAntitone(TWO_256, h + 1, e + 1);
  }

  /**
   * Work is not strictly decreasing in the target: every representable
   * target of at least 2^255 earns exactly one unit.
   */
  lemma ProofIncrementOfHugeTarget(nBits: Uint32)
    requires var d := DecodeCompact(nBits); !d.negative && !d.overflow && d.value >= TWO_256 / 2
    ensures GetProofIncrement(nBits) == 1
  {
    var t: nat := DecodeCompact(nBits).value;
    DecodeBelowMax(nBits);
    DivBelow(TWO_256, 2, t + 1);
    DivAtLeast(TWO_256, 1, t + 1);
  }

  // ---------------------------------------------------------------------
  // CheckProofOfWork
  // ---------------------------------------------------------------------

  /** The verdict, with the two rejection reasons the C++ reports through error(). */
  datatype PowVerdict = Accepted | BelowMinimumWork | HashMismatch

  /** The range check: a positive, representable target no easier than the algorithm's limit. */
  predicate TargetInRange(p: ChainParams, nBits: Uint32, algo: AlgoId)
    requires ValidParams(p)
  {
    var d := DecodeCompact(nBits);
    !d.negative && !d.overflow && d.value != 0 && d.value <= ProofOfWorkLimit(p, algo)
  }

  /**
   * Accepts exactly when the claimed target is in range and the hash does not
   * exceed it; an out-of-range target is rejected whatever the hash.
   */
  function CheckProofOfWork(p: ChainParams, hash: Uint256, nBits: Uint32, algo: AlgoId): (v: PowVerdict)
    requires ValidParams(p)
    ensures v == Accepted <==> TargetInRange(p, nBits, algo) && hash <= DecodeCompact(nBits).value
    ensures !TargetInRange(p, nBits, algo) ==> v == BelowMinimumWork
    ensures v == HashMismatch <==> TargetInRange(p, nBits, algo) && hash > DecodeCompact(nBits).value
  {
    var target := DecodeCompact(nBits);
    if target.negative || target.value == 0 || target.overflow || target.value > ProofOfWorkLimit(p, algo) then
      BelowMinimumWork
    else if hash > target.value then
      HashMismatch
    else
      Accepted
  }

  /** A zero hash meets the compact encoding of any nonzero limit. */
  lemma ZeroHashMeetsEncodedLimit(p: ChainParams, algo: AlgoId)
    requires ValidParams(p) && ProofOfWorkLimit(p, algo) > 0
    ensures CheckProofOfWork(p, 0, EncodeCompact(ProofOfWorkLimit(p, algo)), algo) == Accepted
  {
    CompactRoundTrip(ProofOfWorkLimit(p, algo));
  }

  /** An accepted header contributes at least the work of the algorithm's easiest target. */
  lemma AcceptedHeaderHasWork(p: ChainParams, hash: Uint256, nBits: Uint32, algo: AlgoId)
    requires ValidParams(p) && CheckProofOfWork(p, hash, nBits, algo) == Accepted
    ensures GetProofIncrement(nBits) >= TWO_256 / (ProofOfWorkLimit(p, algo) + 1) >= 1
  {
    var t: nat, limit: nat := DecodeCompact(nBits).value, ProofOfWorkLimit(p, algo);
    DivAntitone(TWO_256, t + 1, limit + 1);
    DivAtLeast(TWO_256, 1, limit + 1);
  }

  // ---------------------------------------------------------------------
  // GetNextWorkRequired: the dispatcher
  // ---------------------------------------------------------------------

  /** C++ `!x` on an integer, as it compares with another integer: 1 when x is 0, else 0. */
  function LogicalNot(x: int): int
  {
    if x == 0 then 1 else 0
  }

  /**
   * The test network gets a fixed difficulty; `!NetworkID() == TESTNET`
   * holds only for network id 0 (MAIN), which selects V1 below the V3 fork
   * and V2 from it on; any other network falls off the end of the function.
   */
  method GetNextWorkRequired(p: ChainParams, chain: Chain, pindexLast: Option<nat>, algo: AlgoId)
    returns (r: Outcome)
    requires ValidParams(p) && Linked(chain) && IsRef(chain, pindexLast)
    requires pindexLast.Some? && p.networkId == MAIN && chain[pindexLast.value].height < p.forks.v3Fork ==>
      IntervalDefined(p, chain[pindexLast.value].height + 1)
    ensures pindexLast.None? ==> r == Undefined(NullDereference)
    ensures pindexLast.Some? && p.networkId == TESTNET ==> r == Ok(TESTNET_FIXED_BITS)
    ensures pindexLast.Some? && p.networkId == MAIN && chain[pindexLast.value].height < p.forks.v3Fork ==>
      r == RetargetV1(p, chain, pindexLast, algo)
    ensures pindexLast.Some? && p.networkId == MAIN && chain[pindexLast.value].height >= p.forks.v3Fork ==>
      r == Ok(EncodeCompact(RetargetV2(p, chain, pindexLast, algo)))
    ensures pindexLast.Some? && p.networkId != MAIN && p.networkId != TESTNET ==> r == Undefined(MissingReturn)
  {
    if pindexLast.None? {
      return Undefined(NullDereference);
    }
    var nHeight := chain[pindexLast.value].height;
    if p.networkId == TESTNET {
      r := Ok(TESTNET_FIXED_BITS);
    } else if LogicalNot(p.networkId) == TESTNET && nHeight < p.forks.v3Fork {
      r := GetNextWorkRequiredV1(p, chain, pindexLast, algo);
    } else if LogicalNot(p.networkId) == TESTNET && nHeight >= p.forks.v3Fork {
      var bits := GetNextWorkRequiredV2(p, chain, pindexLast, algo);
      r := Ok(bits);
    } else {
      r := Undefined(MissingReturn);
    }
  }

  // ---------------------------------------------------------------------
  // GetNextWorkRequiredV1: legacy periodic retarget
  // ---------------------------------------------------------------------

  /** The protocol-era flags for the height of the block being built. */
  datatype Era = Era(newDifficultyProtocol: bool, inflationFixProtocol: bool, difficultySwitchHeightTwo: bool)

  function EraAt(p: ChainParams, nHeight: int): Era
  {
    Era(nHeight >= p.forks.diffSwitchHeight,
        nHeight >= p.forks.inflationFixHeight,
        nHeight >= p.forks.diff2SwitchHeight)
  }

  /** nTargetTimespanCurrent: five times the target timespan before the inflation fix. */
  function TimespanV1(p: ChainParams, era: Era): (t: int)
    requires ValidParams(p)
    ensures t >= p.targetTimespan > 0
  {
    if era.inflationFixProtocol then p.targetTimespan else p.targetTimespan * 5
  }

  /** The divisor of nInterval: the target spacing, halved before the inflation fix. */
  function IntervalDivisor(p: ChainParams, era: Era): int
  {
    if era.inflationFixProtocol then p.targetSpacing else p.targetSpacing / 2
  }

  /** nInterval is computed without dividing by zero and is itself nonzero. */
  predicate IntervalDefined(p: ChainParams, nHeight: int)
    requires ValidParams(p)
  {
    var era := EraAt(p, nHeight);
    IntervalDivisor(p, era) != 0 && TimespanV1(p, era) / IntervalDivisor(p, era) != 0
  }

  /** nInterval: the number of blocks between two retargets. */
  function IntervalV1(p: ChainParams, nHeight: int): (n: int)
    requires ValidParams(p) && IntervalDefined(p, nHeight)
    ensures n > 0
  {
    var era := EraAt(p, nHeight);
    TimespanV1(p, era) / IntervalDivisor(p, era)
  }

  /** The [min, max] band of the actual timespan for an era. */
  function BandV1(tc: int, era: Era): (int, int)
  {
    var hi := if era.newDifficultyProtocol then tc * 2 else tc * 4;
    var lo := if era.newDifficultyProtocol then tc / 2 else tc / 4;
    if era.difficultySwitchHeightTwo then (tc * 55 / 73, tc * 75 / 60) else (lo, hi)
  }

  /**
   * The actual timespan, limited to the era's band: [T/4, 4T] at first,
   * [T/2, 2T] from DIFF_SWITCH_HEIGHT, [55T/73, 75T/60] from
   * DIFF2_SWITCH_HEIGHT (T the current target timespan).
   */
  function ClampTimespanV1(actual: int, tc: int, era: Era): (r: int)
    requires tc > 0
    ensures era.difficultySwitchHeightTwo ==> tc * 55 / 73 <= r <= tc * 75 / 60
    ensures !era.difficultySwitchHeightTwo && era.newDifficultyProtocol ==> tc / 2 <= r <= tc * 2
    ensures !era.difficultySwitchHeightTwo && !era.newDifficultyProtocol ==> tc / 4 <= r <= tc * 4
    ensures BandV1(tc, era).0 <= actual <= BandV1(tc, era).1 ==> r == actual
    ensures actual < BandV1(tc, era).0 ==> r == BandV1(tc, era).0
    ensures actual > BandV1(tc, era).1 ==> r == BandV1(tc, era).1
  {
    DivBounds(tc * 55, 73);
    DivBounds(tc * 75, 60);
    var (lo, hi) := BandV1(tc, era);
    var atLeast := if actual < lo then lo else actual;
    if atLeast > hi then hi else atLeast
  }

  /**
   * The new target before encoding: the old target scaled by
   * actual/target timespan (the product wrapping like `uint256 *=`), capped
   * at the algorithm's limit.
   */
  function TargetV1(oldTarget: Uint256, timespan: int, tc: int, limit: Uint256): (t: Uint256)
    requires tc > 0
    ensures t <= limit
    ensures t <= Mul32(oldTarget, timespan) / tc
  {
    var scaled := Mul32(oldTarget, timespan) / tc;
    if scaled > limit then limit else scaled
  }

  /**
   * When the product does not wrap, V1 scales the old target by exactly
   * timespan / tc (rounded down) and caps it at the limit.
   */
  lemma TargetV1Exact(oldTarget: Uint256, timespan: int, tc: int, limit: Uint256)
    requires tc > 0 && 0 <= timespan < TWO_32 && oldTarget * timespan < TWO_256
    ensures TargetV1(oldTarget, timespan, tc, limit) == Min(oldTarget * timespan / tc, limit)
  {
    var product := oldTarget * timespan;
    assert Mul32(oldTarget, timespan) == product;
  }

  /** `(pindexLast->nHeight+1) % nInterval == 0`: this block is a retarget block. */
  predicate IsRetargetHeight(p: ChainParams, nHeight: int)
    requires ValidParams(p) && IntervalDefined(p, nHeight)
  {
    nHeight % IntervalV1(p, nHeight) == 0
  }

  /** How far back the window starts: one block less on the first retarget after genesis. */
  function BlocksToGoBack(p: ChainParams, nHeight: int): (n: nat)
    requires ValidParams(p) && IntervalDefined(p, nHeight)
    ensures IntervalV1(p, nHeight) - 1 <= n <= IntervalV1(p, nHeight)
    ensures n < IntervalV1(p, nHeight) <==> nHeight == IntervalV1(p, nHeight)
  {
    if nHeight != IntervalV1(p, nHeight) then IntervalV1(p, nHeight) else IntervalV1(p, nHeight) - 1
  }

  /**
   * What GetNextWorkRequiredV1 returns: a fault on null, the limit on the
   * test network, the previous bits off a retarget height, and otherwise a
   * retargeted difficulty, unless the window walk runs off the chain.
   */
  function RetargetV1(p: ChainParams, chain: Chain, pindexLast: Option<nat>, algo: AlgoId): (r: Outcome)
    requires ValidParams(p) && Linked(chain) && IsRef(chain, pindexLast)
    requires pindexLast.Some? ==> IntervalDefined(p, chain[pindexLast.value].height + 1)
    ensures pindexLast.None? <==> r == Undefined(NullDereference)
    ensures r != Undefined(MissingReturn)
    ensures pindexLast.Some? && p.networkId == TESTNET ==> r == Ok(EncodeCompact(ProofOfWorkLimit(p, algo)))
    ensures (pindexLast.Some? && p.networkId != TESTNET
             && !IsRetargetHeight(p, chain[pindexLast.value].height + 1)) ==>
      r == Ok(chain[pindexLast.value].bits)
    ensures r == Undefined(AssertionFailure) ==>
      && pindexLast.Some? && p.networkId != TESTNET
      && IsRetargetHeight(p, chain[pindexLast.value].height + 1)
      && Ancestor(chain, pindexLast, BlocksToGoBack(p, chain[pindexLast.value].height + 1)).None?
  {
    var limit := ProofOfWorkLimit(p, algo);
    if pindexLast.None? then Undefined(NullDereference)
    else
      var last := chain[pindexLast.value];
      var nHeight := last.height + 1;
      if p.networkId == TESTNET then Ok(EncodeCompact(limit))
      else if !IsRetargetHeight(p, nHeight) then Ok(last.bits)
      else
        var first := Ancestor(chain, pindexLast, BlocksToGoBack(p, nHeight));
        if first.None? then Undefined(AssertionFailure)
        else
          var era := EraAt(p, nHeight);
          var tc := TimespanV1(p, era);
          var span := ClampTimespanV1(last.time - chain[first.value].time, tc, era);
          Ok(EncodeCompact(TargetV1(DecodeCompact(last.bits).value, span, tc, limit)))
  }

  /**
   * Legacy retarget: the previous bits unchanged except on a retarget
   * block, where the target is rescaled by the clamped time the last interval
   * took. The genesis check at the top is unreachable: `pindexLast` has
   * already been dereferenced.
   */
  method GetNextWorkRequiredV1(p: ChainParams, chain: Chain, pindexLast: Option<nat>, algo: AlgoId)
    returns (r: Outcome)
    requires ValidParams(p) && Linked(chain) && IsRef(chain, pindexLast)
    requires pindexLast.Some? ==> IntervalDefined(p, chain[pindexLast.value].height + 1)
    ensures r == RetargetV1(p, chain, pindexLast, algo)
    ensures pindexLast.None? ==> r == Undefined(NullDereference)
    ensures (pindexLast.Some? && p.networkId != TESTNET
             && !IsRetargetHeight(p, chain[pindexLast.value].height + 1)) ==>
      r == Ok(chain[pindexLast.value].bits)
    ensures (pindexLast.Some? && r.Ok?
             && (p.networkId == TESTNET || IsRetargetHeight(p, chain[pindexLast.value].height + 1))) ==>
      WithinLimit(r.bits, ProofOfWorkLimit(p, algo))
  {
    var nProofOfWorkLimit := EncodeCompact(ProofOfWorkLimit(p, algo));
    if pindexLast.None? {
      return Undefined(NullDereference);
    }
    RetargetV1WithinLimit(p, chain, pindexLast, algo);
    var last := chain[pindexLast.value];
    var nHeight := last.height + 1;
    var era := EraAt(p, nHeight);
    var tc := TimespanV1(p, era);
    var interval := IntervalV1(p, nHeight);
    if p.networkId == TESTNET {
      return Ok(nProofOfWorkLimit);
    }
    if nHeight % interval != 0 {
      return Ok(last.bits);
    }
    var blocksToGoBack := if nHeight != interval then interval else interval - 1;
    var first := pindexLast;
    var i := 0;
    while first.Some? && i < blocksToGoBack
      invariant 0 <= i <= blocksToGoBack
      invariant IsRef(chain, first)
      invariant Ancestor(chain, first, blocksToGoBack - i) == Ancestor(chain, pindexLast, blocksToGoBack)
      decreases blocksToGoBack - i
    {
      first := chain[first.value].prev;
      i := i + 1;
    }
    if first.None? {
      return Undefined(AssertionFailure);
    }
    var span := ClampTimespanV1(last.time - chain[first.value].time, tc, era);
    var target := TargetV1(DecodeCompact(last.bits).value, span, tc, ProofOfWorkLimit(p, algo));
    r := Ok(EncodeCompact(target));
  }

  /** A compact difficulty that decodes, without either flag, to a target within `limit`. */
  predicate WithinLimit(bits: Uint32, limit: Uint256)
  {
    var d := DecodeCompact(bits);
    !d.negative && !d.overflow && d.value <= limit
  }

  /** Every difficulty V1 computes (rather than copies) decodes within the algorithm's limit. */
  lemma RetargetV1WithinLimit(p: ChainParams, chain: Chain, pindexLast: Option<nat>, algo: AlgoId)
    requires ValidParams(p) && Linked(chain) && IsRef(chain, pindexLast)
    requires pindexLast.Some? ==> IntervalDefined(p, chain[pindexLast.value].height + 1)
    ensures var r := RetargetV1(p, chain, pindexLast, algo);
      (pindexLast.Some? && r.Ok?
       && (p.networkId == TESTNET || IsRetargetHeight(p, chain[pindexLast.value].height + 1))) ==>
        WithinLimit(r.bits, ProofOfWorkLimit(p, algo))
  {
    var limit := ProofOfWorkLimit(p, algo);
    var r := RetargetV1(p, chain, pindexLast, algo);
    if pindexLast.Some? {
      var last := chain[pindexLast.value];
      var nHeight := last.height + 1;
      if p.networkId == TESTNET {
        EncodedWithinLimit(limit, limit);
      } else if IsRetargetHeight(p, nHeight) {
        var first := Ancestor(chain, pindexLast, BlocksToGoBack(p, nHeight));
        if first.Some? {
          var era := EraAt(p, nHeight);
          var tc := TimespanV1(p, era);
          var span := ClampTimespanV1(last.time - chain[first.value].time, tc, era);
          var target := TargetV1(DecodeCompact(last.bits).value, span, tc, limit);
          assert r == Ok(EncodeCompact(target));
          EncodedWithinLimit(target, limit);
        }
      }
    }
  }

  /**
   * On a chain whose heights agree with its links, the window walk always
   * finds its first block, so the `assert(pindexFirst)` never fails.
   */
  lemma RetargetV1NeverAsserts(p: ChainParams, chain: Chain, pindexLast: Option<nat>, algo: AlgoId)
    requires ValidParams(p) && Consistent(chain) && IsRef(chain, pindexLast)
    requires pindexLast.Some? ==> IntervalDefined(p, chain[pindexLast.value].height + 1)
    ensures RetargetV1(p, chain, pindexLast, algo) != Undefined(AssertionFailure)
  {
    if pindexLast.Some? {
      var nHeight := chain[pindexLast.value].height + 1;
      if IsRetargetHeight(p, nHeight) {
        ModZeroAtLeast(nHeight, IntervalV1(p, nHeight));
        AncestorOnConsistentChain(chain, pindexLast.value, BlocksToGoBack(p, nHeight));
      }
    }
  }

  // ---------------------------------------------------------------------
  // GetNextWorkRequiredV2: multi-algorithm averaging retarget
  // ---------------------------------------------------------------------

  /** C++ integer division of a signed value by a positive one: rounds toward zero. */
  function TruncDiv(a: int, b: int): (q: int)
    requires b > 0
    ensures a >= 0 ==> 0 <= q && q * b <= a < q * b + b
    ensures a < 0 ==> q <= 0 && q * b - b < a <= q * b
  {
    if a >= 0 then
      DivBounds(a, b);
      a / b
    else
      var d := (-a) / b;
      DivBounds(-a, b);
      assert (-d) * b == -(d * b);
      -d
  }

  /**
   * Lets a sixth of the deviation from the averaging target timespan
   * through, rounding toward the target.
   */
  function DampTimespan(actual: int): (r: int)
    ensures var dev, kept := actual - AVERAGING_TARGET_TIMESPAN, r - AVERAGING_TARGET_TIMESPAN;
      && (dev >= 0 ==> 0 <= kept && 6 * kept <= dev < 6 * kept + 6)
      && (dev < 0 ==> kept <= 0 && 6 * kept - 6 < dev <= 6 * kept)
  {
    AVERAGING_TARGET_TIMESPAN + TruncDiv(actual - AVERAGING_TARGET_TIMESPAN, 6)
  }

  /** The damped timespan limited to [960, 1680] seconds (20% up, 40% down from 1200). */
  function ClampTimespanV2(span: int): (r: int)
    ensures MIN_ACTUAL_TIMESPAN == 960 && MAX_ACTUAL_TIMESPAN == 1680
    ensures 960 <= r <= 1680
    ensures 960 <= span <= 1680 ==> r == span
    ensures span < 960 ==> r == 960
    ensures span > 1680 ==> r == 1680
  {
    var atLeast := if span < MIN_ACTUAL_TIMESPAN then MIN_ACTUAL_TIMESPAN else span;
    if atLeast > MAX_ACTUAL_TIMESPAN then MAX_ACTUAL_TIMESPAN else atLeast
  }

  /** One tightening step: `bnNew /= 140; bnNew *= 100`. */
  function TightenOnce(t: Uint256): (r: Uint256)
  {
    Mul32(t / (100 + LOCAL_DIFFICULTY_ADJUSTMENT), 100)
  }

  /** `k` tightening steps (the algorithm was used more than its share). */
  function Tighten(t: Uint256, k: nat): (r: Uint256)
    ensures r <= t
  {
    if k == 0 then t else TightenOnce(Tighten(t, k - 1))
  }

  /** One loosening step: `bnNew *= 140; bnNew /= 100`. */
  function LoosenOnce(t: Uint256): (r: Uint256)
  {
    Mul32(t, 100 + LOCAL_DIFFICULTY_ADJUSTMENT) / 100
  }

  /** `k` loosening steps (the algorithm was used less than its share). */
  function Loosen(t: Uint256, k: nat): (r: Uint256)
    ensures t == 0 ==> r == 0
  {
    if k == 0 then t else LoosenOnce(Loosen(t, k - 1))
  }

  /**
   * Loosening eases the target, at most fourfold per step (1.4-fold in
   * fact), as long as no product `bnNew * 140` wraps.
   */
  lemma {:induction false} LoosenBounds(t: Uint256, k: nat)
    ensures t * 140 * FourTo(k) < TWO_256 ==> t <= Loosen(t, k) <= t * FourTo(k)
  {
    if k > 0 && t * 140 * FourTo(k) < TWO_256 {
      var f := FourTo(k - 1);
      MulLe(f, FourTo(k), t * 140);
      LoosenBounds(t, k - 1);
      var l := Loosen(t, k - 1);
      ProductStaysBelow(l, t, f);
      LoosenStep(l);
      FourToStep(t, k);
      MulAssoc(4, t, f);
    }
  }

  lemma ProductStaysBelow(l: nat, t: nat, f: nat)
    requires l <= t * f && t * 140 * f < TWO_256
    ensures l * 140 < TWO_256
  {
    MulLe(l, t * f, 140);
    MulAssoc(t, f, 140);
    MulAssoc(t, 140, f);
  }

  /** One loosening step that does not wrap eases by a factor between 1 and 4. */
  lemma LoosenStep(l: Uint256)
    requires l * 140 < TWO_256
    ensures l <= LoosenOnce(l) <= 4 * l
  {
    assert LoosenOnce(l) == l * 140 / 100;
    DivAtLeast(l * 140, l, 100);
    DivBelow(l * 140, 4 * l + 1, 100);
  }

  /**
   * Without that bound the easing can turn into a tightening: one step on a
   * target just above 2^256 / 140 wraps and lowers it.
   */
  lemma LoosenOnceCanWrap()
    ensures LoosenOnce(TWO_256 / 140 + 1) < TWO_256 / 140 + 1
  {
    var x := TWO_256 / 140 + 1;
    Mul32Wraps(x, 140);
    DivModUnique(x * 140, TWO_256, 1, x * 140 - TWO_256);
  }

  /** Tighten `n` times when `n` is positive, loosen `-n` times when negative. */
  function LocalAdjustment(t: Uint256, n: int): (r: Uint256)
    ensures n >= 0 ==> r <= t
    ensures n < 0 && t * 140 * FourTo(-n) < TWO_256 ==> t <= r
  {
    if n > 0 then Tighten(t, n)
    else if n < 0 then
      LoosenBounds(t, -n);
      Loosen(t, -n)
    else t
  }

  lemma {:induction false} TightenFirst(t: Uint256, k: nat)
    requires k >= 1
    ensures Tighten(t, k) == Tighten(TightenOnce(t), k - 1)
  {
    if k > 1 {
      TightenFirst(t, k - 1);
    }
  }

  /**
   * Loosening undoes tightening up to rounding, never overshooting the start.
   * The rounding loss is less than 140 for a single step and less than
   * 140 * 4^k for k steps. Holds while 100 * t does not wrap.
   */
  lemma {:induction false} LoosenUndoesTighten(t: Uint256, k: nat)
    requires 100 * t < TWO_256
    ensures Loosen(Tighten(t, k), k) <= t
    ensures k == 1 ==> t - 140 < Loosen(Tighten(t, k), k)
    ensures t < Loosen(Tighten(t, k), k) + 140 * FourTo(k)
  {
    if k > 0 {
      var x := TightenOnce(t);
      assert x == (t / 140) * 100;
      TightenFirst(t, k);
      LoosenUndoesTighten(x, k - 1);
      var y := Loosen(Tighten(x, k - 1), k - 1);
      assert y * 140 <= x * 140;
      assert LoosenOnce(y) == y * 140 / 100;
      RoundTripLoss(t, y, FourTo(k - 1));
    }
  }

  /**
   * One more tighten-loosen pair around a round trip that lost less than
   * 140 * f loses less than 140 * 4f.
   */
  lemma RoundTripLoss(t: nat, y: nat, f: nat)
    requires f >= 1 && (t / 140) * 100 < y + 140 * f
    ensures t < y * 140 / 100 + 140 * (4 * f)
  {
    DivBounds(t, 140);
    DivBounds(y * 140, 100);
  }

  /** The global step of V2: `bnNew *= nActualTimespan; bnNew /= nAveragingTargetTimespan`. */
  function ScaleV2(prevAlgoTarget: Uint256, span: int): (r: Uint256)
    ensures span == AVERAGING_TARGET_TIMESPAN && prevAlgoTarget * AVERAGING_TARGET_TIMESPAN < TWO_256 ==>
      r == prevAlgoTarget
  {
    MulDivCancel(prevAlgoTarget, AVERAGING_TARGET_TIMESPAN);
    Mul32(prevAlgoTarget, span) / AVERAGING_TARGET_TIMESPAN
  }

  /** Without wrap-around the global step scales by exactly span / 1200, rounded down. */
  lemma ScaleV2Exact(prevAlgoTarget: Uint256, span: int)
    requires 0 <= span < TWO_32 && prevAlgoTarget * span < TWO_256
    ensures ScaleV2(prevAlgoTarget, span) == prevAlgoTarget * span / AVERAGING_TARGET_TIMESPAN
  {
    var product := prevAlgoTarget * span;
    assert Mul32(prevAlgoTarget, span) == product;
  }

  /**
   * The new target before encoding: the previous same-algorithm target
   * scaled by the clamped timespan over 1200 s, adjusted per algorithm, and
   * capped at the algorithm's limit. It never exceeds the limit; an algorithm
   * at or ahead of its share never gets an easier target than the global
   * step gives; one behind its share never gets a harder one while the
   * loosening cannot wrap; and on schedule the previous target is kept.
   */
  function TargetV2(prevAlgoTarget: Uint256, span: int, adjustments: int, limit: Uint256): (t: Uint256)
    ensures t <= limit
    ensures adjustments >= 0 ==> t <= ScaleV2(prevAlgoTarget, span)
    ensures adjustments < 0 && ScaleV2(prevAlgoTarget, span) * 140 * FourTo(-adjustments) < TWO_256 ==>
      t == limit || ScaleV2(prevAlgoTarget, span) <= t
    ensures (span == AVERAGING_TARGET_TIMESPAN && adjustments == 0
             && prevAlgoTarget * AVERAGING_TARGET_TIMESPAN < TWO_256) ==>
      t == Min(prevAlgoTarget, limit)
  {
    var global := ScaleV2(prevAlgoTarget, span);
    var local := LocalAdjustment(global, adjustments);
    if local > limit then limit else local
  }

  /** The averaging window: NUM_ALGOS * AVERAGING_INTERVAL blocks across all algorithms. */
  const AVERAGING_WINDOW: nat := NUM_ALGOS * AVERAGING_INTERVAL as nat

  /** The target GetNextWorkRequiredV2 encodes into its result. */
  function RetargetV2(p: ChainParams, chain: Chain, pindexLast: Option<nat>, algo: AlgoId): (t: Uint256)
    requires ValidParams(p) && Linked(chain) && IsRef(chain, pindexLast)
    ensures t <= ProofOfWorkLimit(p, algo)
  {
    var limit := ProofOfWorkLimit(p, algo);
    if pindexLast.None? then limit
    else
      var first := Ancestor(chain, pindexLast, AVERAGING_WINDOW);
      var prevAlgo := LastBlockForAlgo(chain, pindexLast, algo);
      if prevAlgo.None? || first.None? then limit
      else
        var last := chain[pindexLast.value];
        var span := ClampTimespanV2(DampTimespan(last.medianTimePast - chain[first.value].medianTimePast));
        var adjustments := chain[prevAlgo.value].height - last.height + NUM_ALGOS - 1;
        TargetV2(DecodeCompact(chain[prevAlgo.value].bits).value, span, adjustments, limit)
  }

  /**
   * Averaging retarget: the limit when history is too short, otherwise the
   * previous same-algorithm target rescaled by the damped, clamped median
   * timespan of the last 30 blocks and then adjusted once per slot the
   * algorithm is ahead of (divide by 1.4) or behind (multiply by 1.4) its
   * share.
   */
  method GetNextWorkRequiredV2(p: ChainParams, chain: Chain, pindexLast: Option<nat>, algo: AlgoId)
    returns (bits: Uint32)
    requires ValidParams(p) && Linked(chain) && IsRef(chain, pindexLast)
    ensures bits == EncodeCompact(RetargetV2(p, chain, pindexLast, algo))
    ensures WithinLimit(bits, ProofOfWorkLimit(p, algo))
    ensures (pindexLast.None? || LastBlockForAlgo(chain, pindexLast, algo).None?
             || Ancestor(chain, pindexLast, AVERAGING_WINDOW).None?) ==>
      bits == EncodeCompact(ProofOfWorkLimit(p, algo))
  {
    var limit := ProofOfWorkLimit(p, algo);
    EncodedWithinLimit(RetargetV2(p, chain, pindexLast, algo), limit);
    var nProofOfWorkLimit := EncodeCompact(limit);
    if pindexLast.None? {
      return nProofOfWorkLimit;
    }
    var first := pindexLast;
    var i := 0;
    while first.Some? && i < AVERAGING_WINDOW
      invariant 0 <= i <= AVERAGING_WINDOW
      invariant IsRef(chain, first)
      invariant Ancestor(chain, first, AVERAGING_WINDOW - i) == Ancestor(chain, pindexLast, AVERAGING_WINDOW)
    {
      first := chain[first.value].prev;
      i := i + 1;
    }
    var prevAlgo := LastBlockForAlgo(chain, pindexLast, algo);
    if prevAlgo.None? || first.None? {
      return nProofOfWorkLimit;
    }
    var last := chain[pindexLast.value];
    var span := last.medianTimePast - chain[first.value].medianTimePast;
    span := ClampTimespanV2(DampTimespan(span));
    var global := ScaleV2(DecodeCompact(chain[prevAlgo.value].bits).value, span);
    var adjustments := chain[prevAlgo.value].height - last.height + NUM_ALGOS - 1;
    var target := AdjustLocally(global, adjustments);
    if target > limit {
      target := limit;
    }
    bits := EncodeCompact(target);
  }

  /**
   * The per-algorithm step of V2: divide by 1.4 once per slot the algorithm
   * is ahead of its share, multiply by 1.4 once per slot it is behind.
   */
  method AdjustLocally(global: Uint256, adjustments: int) returns (target: Uint256)
    ensures target == LocalAdjustment(global, adjustments)
    ensures adjustments >= 0 ==> target <= global
    ensures adjustments < 0 && global * 140 * FourTo(-adjustments) < TWO_256 ==> global <= target
  {
    target := global;
    if adjustments > 0 {
      var j := 0;
      while j < adjustments
        invariant 0 <= j <= adjustments
        invariant target == Tighten(global, j)
      {
        target := target / (100 + LOCAL_DIFFICULTY_ADJUSTMENT);
        target := Mul32(target, 100);
        j := j + 1;
      }
    }
    if adjustments < 0 {
      var j := 0;
      while j < -adjustments
        invariant 0 <= j <= -adjustments
        invariant target == Loosen(global, j)
      {
        target := Mul32(target, 100 + LOCAL_DIFFICULTY_ADJUSTMENT);
        target := target / 100;
        j := j + 1;
      }
    }
  }

  /** Encoding a target within the limit yields a difficulty that decodes, without a flag, within the limit. */
  lemma EncodedWithinLimit(t: Uint256, limit: Uint256)
    requires t <= limit
    ensures WithinLimit(EncodeCompact(t), limit)
  {
    CompactRoundTrip(t);
  }

  /** With fewer than 30 blocks of history on a consistent chain, V2 returns the limit. */
  lemma RetargetV2ShortHistory(p: ChainParams, chain: Chain, last: nat, algo: AlgoId)
    requires ValidParams(p) && Consistent(chain) && last < |chain|
    requires chain[last].height < AVERAGING_WINDOW
    ensures RetargetV2(p, chain, Some(last), algo) == ProofOfWorkLimit(p, algo)
  {
    AncestorOnConsistentChain(chain, last, AVERAGING_WINDOW);
  }

  /**
   * On a consistent chain the same-algorithm block is never above the last
   * block, so the per-algorithm step tightens at most NUM_ALGOS - 1 times,
   * and exactly that often when the last block itself used `algo`.
   */
  lemma AdjustmentsAtMostTwo(chain: Chain, last: nat, algo: AlgoId)
    requires Consistent(chain) && last < |chain|
    ensures var prevAlgo := LastBlockForAlgo(chain, Some(last), algo);
      prevAlgo.Some? ==>
        && chain[prevAlgo.value].height - chain[last].height + NUM_ALGOS - 1 <= NUM_ALGOS - 1
        && (chain[last].algo == algo ==>
              chain[prevAlgo.value].height - chain[last].height + NUM_ALGOS - 1 == NUM_ALGOS - 1)
  {
    LastBlockForAlgoIsAncestor(chain, last, algo);
  }

  /**
   * On schedule (the median timespan of the window is exactly 1200 s and the
   * algorithm had exactly its share) the retarget keeps the previous
   * same-algorithm target, capped at the limit.
   */
  lemma RetargetV2OnSchedule(p: ChainParams, chain: Chain, last: nat, algo: AlgoId)
    requires ValidParams(p) && Linked(chain) && last < |chain|
    requires var first := Ancestor(chain, Some(last), AVERAGING_WINDOW);
      first.Some? && chain[last].medianTimePast - chain[first.value].medianTimePast == AVERAGING_TARGET_TIMESPAN
    requires var prevAlgo := LastBlockForAlgo(chain, Some(last), algo);
      && prevAlgo.Some?
      && chain[prevAlgo.value].height + NUM_ALGOS - 1 == chain[last].height
      && DecodeCompact(chain[prevAlgo.value].bits).value * AVERAGING_TARGET_TIMESPAN < TWO_256
    ensures var prevAlgo := LastBlockForAlgo(chain, Some(last), algo);
      RetargetV2(p, chain, Some(last), algo)
        == Min(DecodeCompact(chain[prevAlgo.value].bits).value, ProofOfWorkLimit(p, algo))
  {
    var prevAlgo := LastBlockForAlgo(chain, Some(last), algo);
    var t := DecodeCompact(chain[prevAlgo.value].bits).value;
    assert DampTimespan(AVERAGING_TARGET_TIMESPAN) == AVERAGING_TARGET_TIMESPAN;
    MulDivCancel(t, AVERAGING_TARGET_TIMESPAN);
  }
}
