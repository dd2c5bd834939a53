# Proof-of-work rules of a three-algorithm chain, in Dafny

This project models `src/pow.cpp` of digitalcoin. Blocks on this chain are mined with one of three algorithms (SHA-256d, scrypt, X11). The file decides:

- how much work a header must show: the minimum-work guard `CheckMinWork` and the final range-and-hash check `CheckProofOfWork`;
- how much work a header adds to its chain: `GetProofIncrement`;
- what the next difficulty is: the dispatcher `GetNextWorkRequired` and its two retarget algorithms, the legacy periodic retarget (V1) and the multi-algorithm averaging retarget (V2);
- the timestamp a candidate header gets: `UpdateTime`.

Modules:

- `arith.dfy` (`Arithmetic`): facts about multiplication, division and remainder of naturals used by the proofs.
- `uint256.dfy` (`UInt256`): the part of the 256-bit unsigned type that the rules use.
  - Targets are naturals below 2^256.
  - `DecodeCompact` and `EncodeCompact` are the compact "nBits" format (`SetCompact` / `GetCompact`): one exponent byte, a 23-bit mantissa and a sign bit at `0x00800000`, with the negative and overflow flags made explicit.
  - `Mul32` is `uint256 *= int64`. Overload resolution picks the 32-bit-factor operator, so the factor is reduced modulo 2^32 and the product wraps modulo 2^256.
- `chain.dfy` (`ChainIndex`): the read-only chain and the network parameters.
  - The block index is a sequence of records (height, time, median time past, bits, algorithm, predecessor position or none).
  - `Ancestor` is the backward walk, stopping at none. `LastBlockForAlgo` is the same-algorithm lookup.
  - `ChainParams` replaces the `Params()` singleton and also carries the four fork heights.
- `pow.dfy` (`Pow`): the rules themselves.
  - Each loop of the C++ is a Dafny method with its loop: the quadrupling loop of `CheckMinWork`, the window walks of V1 and V2, and the 140/100 adjustment loops of V2 (`AdjustLocally`).
  - Each such method is proved equal to a specification function (`Eased`, `RetargetV1`, `RetargetV2`, `LocalAdjustment`). The lemmas are stated about those functions.
  - `UpdateTime` changes the two header fields of a `BlockHeader` object.

Behaviour kept exactly as the code has it:

- `!Params().NetworkID() == CBaseChainParams::TESTNET` (src/pow.cpp:96, :100) parses as `(!id) == TESTNET`. With MAIN = 0, TESTNET = 1 and REGTEST = 2, only the main network reaches V1 or V2.
  - Every other non-test network falls off the end of a function returning `unsigned int`. That is `Undefined(MissingReturn)`.
  - The same condition is `LogicalNot` in the model.
- The dispatcher reads `pindexLast->nHeight` (src/pow.cpp:91) before anything else, and V1 does the same (src/pow.cpp:111). A null `pindexLast` is therefore `Undefined(NullDereference)`, and V1's own genesis test (src/pow.cpp:126) is never reached.
- `assert(pindexFirst)` (src/pow.cpp:145) is `Undefined(AssertionFailure)`. `RetargetV1NeverAsserts` shows it cannot fire on a chain whose heights agree with its links.
- `bnLimit` (src/pow.cpp:49, :53) is not declared in the file. It is a separate parameter of `CheckMinWork`. The final cap is the scrypt limit declared at src/pow.cpp:45.
- `(nActualTimespan - nAveragingTargetTimespan)/6` (src/pow.cpp:203) truncates toward zero (`TruncDiv`).
- `nInterval` (src/pow.cpp:118) must be nonzero for the modulo at :130. `IntervalDefined` is a precondition on the parameters wherever V1 can run.

Consequences of the code as written:

- The dispatcher compares `pindexLast->nHeight` itself, not the height of the block being built, with `V3_FORK` (src/pow.cpp:91, :96, :100).
- Of all non-test networks, only network id 0 reaches V1 or V2.
- The min-difficulty branch of `CheckMinWork` compares against `bnLimit`, not against the scrypt limit that the function declares.
- The work increment is non-increasing in the target, but not strictly decreasing, because of the floor division:
  - `ProofIncrementAntitone` proves non-increasing.
  - `ProofIncrementOfHugeTarget` shows every target of at least 2^255 earns the same single unit.
- The per-algorithm loosening loop (src/pow.cpp:228-235) multiplies before it caps (src/pow.cpp:237), so `bnNew *= 140` can wrap modulo 2^256:
  - `LoosenBounds` proves it eases the target while no product wraps.
  - `LoosenOnceCanWrap` shows one step that wraps makes the target smaller.

## Model

| member | source | states |
|---|---|---|
| `Pow.CheckMinWork` | src/pow.cpp:37-63 | Rejects an overflowing nBits first. Under the min-difficulty rule it accepts iff the target is at most `bnLimit`. Otherwise it accepts iff the target is at most the eased, scrypt-capped bound; for `deltaTime <= 0` that bound is min(decoded nBase, scrypt limit). The loop terminates. |
| `Pow.MinWorkBound` | src/pow.cpp:51-61 | The bound compared against never exceeds the scrypt proof-of-work limit, and it equals min(decoded nBase, limit) when no time has elapsed. |
| `Pow.Eased` | src/pow.cpp:53-59 | What the quadrupling loop leaves. With no time left, or a target already at bnLimit, it is the base target. When quadrupling below bnLimit cannot wrap, it never tightens the target and, once it moves, stops below 4·bnLimit. |
| `Pow.EasedBounds` | src/pow.cpp:53-59 | Within k·4·TargetTimespan seconds the loop eases at most 4^k-fold, for every bnLimit: a wrapped `*= 4` only gives less. |
| `Pow.UpdateTime` | src/pow.cpp:65-72 | nTime becomes max(previous median time past + 1, adjusted time), stored mod 2^32, hence strictly after the median time past. nBits becomes the fixed test-network difficulty on the test network and is unchanged elsewhere. |
| `Pow.WorkIdentity` | src/pow.cpp:82-86 | ~t/(t+1) + 1 equals ⌊2^256/(t+1)⌋ whenever t+1 is representable. |
| `Pow.WorkInRange` | src/pow.cpp:80-86 | For a nonzero representable target, ⌊2^256/(t+1)⌋ is between 1 and 2^255, so the returned work fits a uint256 and is nonzero. |
| `Pow.GetProofIncrement` | src/pow.cpp:74-87 | Zero exactly when the decoded target is negative, overflowing or zero; otherwise ⌊2^256/(target+1)⌋. |
| `Pow.ProofIncrementAntitone` | src/pow.cpp:74-87 | A harder (smaller, nonzero) target never earns less work than an easier one. |
| `Pow.ProofIncrementOfHugeTarget` | src/pow.cpp:82-86 | Every valid target of at least 2^255 earns exactly 1, so the increment is not strictly decreasing. |
| `Pow.CheckProofOfWork` | src/pow.cpp:249-265 | Accepts iff the target is non-negative, non-overflowing, nonzero and within the algorithm's limit, and the hash does not exceed it. A failed range check is "below minimum work" whatever the hash; otherwise a hash above the target is a mismatch. |
| `Pow.ZeroHashMeetsEncodedLimit` | src/pow.cpp:256-264 | A zero hash passes against the compact encoding of any nonzero proof-of-work limit. |
| `Pow.AcceptedHeaderHasWork` | src/pow.cpp:257-264 | A header the check accepts earns at least ⌊2^256/(limit+1)⌋ ≥ 1 units of work. |
| `Pow.GetNextWorkRequired` | src/pow.cpp:89-106 | Null pindexLast is undefined; the test network gets 0x1d13ffec; network id 0 delegates to V1 below V3_FORK and to V2 at or above it; any other network is undefined (missing return). |
| `Pow.TimespanV1` | src/pow.cpp:117 | The current target timespan is positive and at least T. Only this bound is proved; the choice of T or 5T by era is the body alone. |
| `Pow.IntervalV1` | src/pow.cpp:118 | The retarget interval is positive whenever it is defined. |
| `Pow.BlocksToGoBack` | src/pow.cpp:137-139 | The walk covers nInterval or nInterval - 1 blocks, and the shorter walk happens exactly on the first retarget, where the height equals nInterval. |
| `Pow.ClampTimespanV1` | src/pow.cpp:147-160 | The clamped timespan lies in the era's band: [T/4, 4T], then [T/2, 2T], then [55T/73, 75T/60]. A timespan already in the band is kept; one below it becomes the lower end and one above it the upper end. |
| `Pow.TargetV1` | src/pow.cpp:162-171 | The pre-encoding target never exceeds the algorithm's limit or the wrapped scaled target. |
| `Pow.TargetV1Exact` | src/pow.cpp:163-171 | Without wrap-around, the new target is min(old · timespan / T, limit). |
| `Pow.RetargetV1` | src/pow.cpp:108-178 | Null pindexLast is exactly the dereference fault, and the result is never a missing return. The test network gets the limit's encoding. Off a retarget height the previous bits come back. The assertion fault only arises on a retarget height when the walk runs off the chain. |
| `Pow.GetNextWorkRequiredV1` | src/pow.cpp:108-178 | Returns exactly `RetargetV1`. It yields pindexLast's nBits unchanged off a retarget height. A computed difficulty decodes, with no flag, within the algorithm's limit. |
| `Pow.RetargetV1WithinLimit` | src/pow.cpp:120-177 | Every difficulty V1 computes, rather than copies, decodes without either flag to a target within the limit. |
| `Pow.RetargetV1NeverAsserts` | src/pow.cpp:141-145 | On a chain whose heights agree with its links, the window walk always finds its first block. |
| `Pow.TruncDiv` | src/pow.cpp:203 | Integer division of a signed value rounds toward zero: quotient and remainder bounds for both signs. |
| `Pow.DampTimespan` | src/pow.cpp:202-203 | The damped timespan keeps one sixth of the deviation from 1200 s, rounded toward 1200. |
| `Pow.ClampTimespanV2` | src/pow.cpp:205-208 | The bounds are 960 and 1680 s, the result always lies in [960, 1680], and a value inside is kept. A value below 960 becomes 960, and one above 1680 becomes 1680. |
| `Pow.Tighten` | src/pow.cpp:222-226 | Any number of divide-by-1.4 steps never raises the target. |
| `Pow.LoosenBounds` | src/pow.cpp:230-234 | `Loosen`, the k multiply-by-1.4 steps: while t·140·4^k < 2^256 they ease the target, and at most 4^k-fold. |
| `Pow.LoosenOnceCanWrap` | src/pow.cpp:232-233 | One loosening step on 2^256/140 + 1 wraps and gives a smaller target. |
| `Pow.LocalAdjustment` | src/pow.cpp:218-235 | A non-negative count never raises the target. A negative count never lowers it while the loosening products cannot wrap. |
| `Pow.LoosenUndoesTighten` | src/pow.cpp:218-235 | Loosening k times after tightening k times never overshoots the start. The rounding loss is less than 140 for one round trip and less than 140·4^k for k. |
| `Pow.AdjustLocally` | src/pow.cpp:218-235 | The loops apply exactly `nAdjustments` tightening steps when it is positive and `-nAdjustments` loosening steps when it is negative. A non-negative count never raises the target; a negative one never lowers it while nothing wraps. |
| `Pow.ScaleV2` | src/pow.cpp:213-216 | The global step keeps the previous target when the clamped timespan is exactly 1200 s and the product does not wrap. |
| `Pow.ScaleV2Exact` | src/pow.cpp:215-216 | Without wrap-around the global step is ⌊target·timespan/1200⌋. |
| `Pow.TargetV2` | src/pow.cpp:210-238 | The pre-encoding target never exceeds the limit. An algorithm at or ahead of its share never gets a target easier than the global step. One behind its share gets the limit or at least the global step, while loosening cannot wrap. On schedule it is min(previous target, limit). |
| `Pow.RetargetV2` | src/pow.cpp:185-238 | The target V2 encodes never exceeds the algorithm's limit. |
| `Pow.GetNextWorkRequiredV2` | src/pow.cpp:180-247 | Returns the encoding of `RetargetV2`. That is the limit's encoding when pindexLast is null or the 30-block walk or the same-algorithm lookup finds nothing. The result always decodes, with no flag, within the limit. |
| `Pow.EncodedWithinLimit` | src/pow.cpp:237-246 | Encoding a target within the limit gives a difficulty that decodes, flag-free, within the limit. |
| `Pow.RetargetV2ShortHistory` | src/pow.cpp:189-198 | With fewer than 30 blocks of history on a consistent chain, V2 returns the limit. |
| `Pow.AdjustmentsAtMostTwo` | src/pow.cpp:219 | nAdjustments is at most NUM_ALGOS - 1, and exactly that when the last block used the same algorithm. |
| `Pow.RetargetV2OnSchedule` | src/pow.cpp:200-238 | A window that took exactly 1200 s, for an algorithm with exactly its share, keeps the previous same-algorithm target (capped at the limit). |
| `ChainIndex.Ancestor` | src/pow.cpp:142-144 | The walk ends at null or at a record no later than its start. |
| `ChainIndex.AncestorOnConsistentChain` | src/pow.cpp:141-145 | On a consistent chain a walk of n steps from height h finds a record iff n ≤ h, and that record is at height h - n. |
| `ChainIndex.LastBlockForAlgo` | src/pow.cpp:196 | The lookup yields null or a record no later than pindexLast mined with the algorithm. It yields pindexLast itself when that block used it. |
| `ChainIndex.LastBlockForAlgoIsAncestor` | src/pow.cpp:196-198 | The record found is the ancestor of pindexLast at the height difference, and no record walked past before it used the algorithm, so it is the nearest one. |
| `UInt256.Mul32Wraps` | src/pow.cpp:215 | `*=` by a 64-bit factor multiplies by the factor mod 2^32 and wraps mod 2^256. |
| `UInt256.Mul32` | src/pow.cpp:167 | Without wrap-around `*=` is the exact product. |
| `UInt256.DecodeCompact` | src/pow.cpp:41 | SetCompact: the negative flag is set exactly for a nonzero word with the sign bit. Overflow is reported only for a nonzero word with exponent above 32. An exponent of at most 3 yields the right-shifted word exactly, never overflowing. |
| `UInt256.EncodeCompact` | src/pow.cpp:177 | GetCompact: the sign bit is clear and the exponent is the byte length of the value or one more, at most 33. The mantissa is zero exactly for the value zero. |
| `UInt256.DecodeIsExact` | src/pow.cpp:41 | A decode reported as non-overflowing is exact: mantissa · 256^(exponent-3). |
| `UInt256.DecodeBelowMax` | src/pow.cpp:79-86 | A decoded target is below 2^256 - 1, so `bnTarget + 1` cannot wrap. |
| `UInt256.CompactRoundTrip` | src/pow.cpp:176-177 | `GetCompact` then `SetCompact` gives a target with both flags clear. The value never grows, stays nonzero if it was, and comes back exactly below 2^23. |

## Left out

- `LogPrintf` diagnostics (src/pow.cpp:102, 174-176, 183, 204, 241-244): they do not affect any result.
- The `Params()` singleton is the immutable `ChainParams` record. `GetAdjustedTime()` is the `adjustedTime` input of `UpdateTime`.
- uint256.h is not part of this model.
  - `SetCompact`, `GetCompact` and the `uint256` operators are written from the Bitcoin 0.10 definitions of the compact format.
  - Only the properties this file relies on are proved.
  - That `GetCompact` is idempotent on its own output is not proved.
- `GetLastBlockIndexForAlgo` and `GetMedianTimePast` are defined outside this file.
  - The lookup is modelled as the nearest record, from pindexLast backwards, mined with the algorithm.
  - Median time past is a stored field of each record.
- Hashes are 256-bit inputs. Block storage, the block-index structure's ownership and locking are not modelled.
- The fork heights `V3_FORK`, `DIFF_SWITCH_HEIGHT`, `INFLATION_FIX_HEIGHT` and `DIFF2_SWITCH_HEIGHT` are defined outside this file, so they are fields of `ChainParams` with no fixed values.
- The unused `pblock` parameter of the retarget functions is dropped. So are the unused constants `multiAlgoTargetTimespan`, `multiAlgoInterval` and `nTargetTimespanAdjDown` (src/pow.cpp:17, 19, 27).
- `int64_t` overflow is not modelled: timespans, heights and `deltaTime` are unbounded integers.
- `Pow.UpdateTime`: requires a non-null `pindexPrev`, which the C++ dereferences unconditionally. Strict monotonicity is stated only when the maximum fits in the 32-bit `nTime` field.
- `Pow.AdjustLocally`: easing is promised only while no `bnNew *= 140` wraps. Past that point the C++ can tighten instead. The model keeps the wrap-around, as the code has it.
  - A target just above 2^256/140 wraps on the first step (`LoosenOnceCanWrap`).
  - A target at a typical limit such as 2^236 - 1 exceeds 2^256/140 after 27 steps, since 1.4^27·140 > 2^20, so a 28th consecutive loosening step wraps. This count is worked out by hand, not proved in the model.
- Algorithm ids are restricted to 0, 1 and 2 (`AlgoId`). The C++ takes any `int`, and an id outside that range would index the per-algorithm limits out of bounds.
- `Pow.LoosenUndoesTighten`: holds only while 100·t < 2^256, so that the loosening products do not wrap.
