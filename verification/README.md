# A verified model of a concentrated-liquidity pool engine

This project models the state engine of a Uniswap v3/v4 concentrated-liquidity
pool in Dafny and proves what the engine is relied on for: that the tokens held
always cover what the positions are worth and are owed, when a position can
take them out, that fee accounting modulo 2^256 is exact, that ticks and
positions never drift apart, that a swap visits every initialized tick once and
ends, and that the paged tick index underneath is a plain sorted map.

`dafny verify dfyconfig.toml` checks everything.

## How it is built

Bottom up, each layer proved against a simpler description of itself:

1. **Words and kernels.** Machine words are natural numbers with the source's
   masks, shifts and wrap-around written out (`Bits`, `Words`, `WordSets`).
   `FullMath`, `SmallRatio`, `SqrtPriceMath`, `SwapMath`, `TickMath`, `Deltas`
   and `Fees` follow every width-dependent path of the source; their lemmas
   equate each path with exact floor or ceiling division, or bound it on the
   side that favours the pool. Widths are kept as powers of two.
2. **Tick index.** `TickSlabIndexer`, `HierBitmaps`, `TickPages`,
   `PageAllocator` and `TickSlabs` are the source's structures as classes over
   arrays. `TickSlab.contents` is the map the store stands for; every method
   states its effect on that map. `PageChain` and `TickCodec` hold the
   reasoning on values; `TickSnapshots` saves and rebuilds a store.
3. **Pool engine.** `PoolSpec`, `SwapSpec` and `SwapCall` say what each
   operation does, as functions from pool values to pool values, failing paths
   included. `Pools.Pool` and `PositionStore` are the imperative objects, proved
   to do exactly that. `Reconciliation`, `ActiveLiquidity`, `Traversal`,
   `Solvency`, `FeeGrowth`, `ModifyEffects` and `FloorTick` prove properties of
   the operations, and `Histories` lifts them to any sequence of operations,
   with a ledger per token. `Withdrawals` and `Deposits` say exactly which
   liquidity changes succeed, `FeeCompleteness` that fees reach the positions,
   `FailedChanges` what failed changes leave behind, and `SwapErrors` with
   `GrowthLimit` how a swap can fail.

Beside the engine, `StablePair` models the dynamic-fee hook for stable pairs as
an object whose state the first call of a block replaces.

Tick prices are any strictly increasing map from ticks to prices with the
protocol's price bounds at the ends of the tick range; the tick of a price is
the greatest tick whose price is not above it. Exact principal is a real number.

Where the code and its documentation disagree the model follows the code:

- `src/core/types/pool_state.rs:20` documents that the stored tick is always the
  floor tick of the price, but a downward step that ends on its target tick
  stores the tick below. `FloorTick.DownSwapLosesFloor` gives a pool and a swap,
  `FloorTick.SwapDownRestorable` and `FloorTick.QuoteTellsRestorable` say exactly
  when.
- `src/core/types/pool_state.rs:22-23` documents that fee growth wraps modulo
  2^256, but `src/core/concentrated/pool.rs:836-848` adds it with a check and
  fails. `LostFees.GrowthDoesNotWrap` gives a reachable pool and a swap,
  `GrowthLimit.SwapNeedsRoomForGrowth` says exactly when.

Errors of `modify_liquidity` are not rolled back;
`FailedChanges.FailureLeavesReconciled` says exactly after which of them the pool
is still reconciled. Fees and principal are paid as signed 128-bit amounts, and
a position's fee checkpoint is moved before that is checked, so fees can be
owed and yet lost: `Withdrawals.WithdrawalSucceeds` says exactly when a position
is paid, `LostFees.OwedButNotCollectable` gives a reachable pool that loses fees.

## Model

| member | source | states |
|---|---|---|
| `Histories.HistorySolvent` | src/core/concentrated/pool.rs:330-935 | From an empty pool, after any sequence of successful liquidity changes, swaps and protocol-fee changes, the tokens held in either token cover the exact (unrounded) worth of all positions at the current price, plus all LP fees still owed, plus all protocol fees; LP fees paid plus LP fees owed never exceed the LP fees charged |
| `Histories.RoundTripNeverProfits` | src/core/concentrated/pool.rs:599-935 | Any sequence of successful swaps that ends at the price it started from leaves the pool with at least as much of each token as before |
| `Histories.HistoryPays` | src/core/concentrated/pool.rs:330-935 | Over any history, liquidity changes included, the positions gain no more worth than the principal paid in |
| `Histories.ReturnNeverLowersPrincipal` | src/core/concentrated/pool.rs:330-935 | A history that brings the price and every liquidity back never lowers the principal of either token |
| `Histories.SwapsPay` | src/core/concentrated/pool.rs:599-935 | Over any sequence of swaps the tokens paid in, net of those paid out, are at least what the positions gain in worth; the positions are untouched and the pool stays reconciled |
| `Histories.HistoryKeepsInv` | src/core/concentrated/pool.rs:330-935 | The world invariant (reconciled pool, right fee caches, both tokens solvent) holds after every sequence of successful operations |
| `Histories.ApplyKeepsInv` | src/core/concentrated/pool.rs:330-935 | One successful operation keeps the world invariant |
| `Histories.EmptyWorldInv` | src/core/concentrated/pool.rs:284-304 | A new pool satisfies the world invariant |
| `Histories.SwapEffect` | src/core/concentrated/pool.rs:599-935 | A successful swap keeps the pool reconciled, moves the total worth by at most the net principal swapped, and raises the fees accrued by at most the LP fees charged |
| `Histories.ModifyPays` | src/core/concentrated/pool.rs:330-452 | A successful liquidity change keeps the pool reconciled and pays for what the positions gain in principal and fees |
| `Histories.OwedWithinAccrued` | src/core/concentrated/position.rs:113-128 | The floored fees owed to all positions, in units of 2^-128, never exceed the exact accruals |
| `Histories.SwapAlwaysReady` | src/core/concentrated/pool.rs:694-710 | On a reconciled pool the loop's start condition holds iff the price limit is strictly inside the price range |
| `Withdrawals.WithdrawalSucceeds` | src/core/concentrated/pool.rs:330-452 | Removing part or all of a position, or collecting its fees, pays exactly the floored worth and the owed fees, and fails, with an amount overflow only, iff one of the four payments does not fit in a signed 128-bit amount |
| `Withdrawals.WithdrawalAfterHistory` | src/core/concentrated/pool.rs:330-935 | After any history from an empty pool a withdrawal or collection succeeds iff its four payments fit |
| `Withdrawals.AllCanLeave` | src/core/concentrated/pool.rs:330-452 | In a solvent pool any positions whose payments fit can be taken out one after another, in any order; the other positions stay as they were and the tokens held never fall below the protocol fees |
| `Withdrawals.EveryoneCanLeave` | src/core/concentrated/pool.rs:330-935 | The same after any history from an empty pool |
| `Withdrawals.WideFeesAreLost` | src/core/concentrated/pool.rs:395-422 | Fees of 2^127 or more cannot be collected: the call fails but moves the checkpoint, and the next collection pays nothing |
| `Deposits.ChangeSucceeds` | src/core/concentrated/pool.rs:330-452 | On a reconciled pool any liquidity change succeeds iff its ticks are ordered and aligned and: an addition has room under the cap at both ends, counted over the positions, fitting fees and a cost of at most 2^127 in either token; anything else takes no more than the position holds and its payments fit. Wrong ticks are refused with nothing written |
| `Deposits.DepositSucceeds` | src/core/concentrated/pool.rs:330-452 | An addition costs exactly the rounded-up worth and collects exactly the owed fees; it fails with a liquidity overflow iff the positions ending on one of its ticks leave no room, and otherwise with an amount overflow iff fees or cost do not fit |
| `Deposits.AdditionAtEnds` | src/core/concentrated/pool.rs:517-593 | From a reconciled pool both boundary ticks accept an addition iff the liquidity of the positions ending there stays within the cap with it |
| `Deposits.PrincipalOfAddition` | src/core/types/delta.rs:95-145 | The principal of an addition is the rounded-up worth in both tokens, refused iff one of them exceeds 2^127 |
| `LostFees.OwedButNotCollectable` | src/core/concentrated/pool.rs:330-935 | A reachable input for it: from an empty pool one unit of liquidity and one swap whose fee absorbs its input of 2^127 succeed, the collection fails, and a second one pays nothing |
| `FeeCompleteness.FeesReachPositions` | src/core/concentrated/pool.rs:330-935 | Over any history from an empty pool, LP fees charged exceed fees paid plus fees owed by at most one token for every loop iteration, every liquidity change and every position |
| `FeeCompleteness.StepAccruesExactly` | src/core/concentrated/pool.rs:836-889 | One iteration raises the accruals of the positions by exactly its growth times the active liquidity; the accrual since a checkpoint never wraps |
| `FeeCompleteness.RunShortfall` | src/core/concentrated/pool.rs:715-900 | A run credits its LP fees to the positions up to one token for every iteration |
| `FeeCompleteness.ModifyShortfall` | src/core/concentrated/position.rs:99-139 | A liquidity change takes off the accruals what it pays out and less than one token more |
| `SwapErrors.SwapOutcome` | src/core/concentrated/pool.rs:599-935 | On a reconciled pool, error by error: an LP fee override above 100%, a limit on the wrong side, and an exact output at a 100% fee are refused; any other request succeeds iff its run from no growth ends, that growth and the pool's stay below 2^256 together, and the amounts fit in 128 bits; a run that does not end reports a fee that is too large, unless the input is 2^246 or more or a protocol fee is charged without a resolved LP fee |
| `SwapErrors.RunErrors` | src/core/concentrated/pool.rs:715-900 | With ordered fees and an input below 2^246 no sum of the loop overflows and no crossing fails |
| `SwapErrors.FailedSwapKeepsInv` | src/core/concentrated/pool.rs:656-935 | A failed swap leaves a reconciled pool reconciled: state and positions are as they were, and ticks differ in outside growth only |
| `GrowthLimit.SwapNeedsRoomForGrowth` | src/core/concentrated/pool.rs:836-848 | A swap succeeds iff it does on the same pool without growth in the input token, and the growth it leaves there, added to the pool's, stays below 2^256; the results are then the same, and otherwise the fee is too large |
| `GrowthLimit.RunShifts` | src/core/concentrated/pool.rs:715-900 | A run from more growth ends exactly when it does from less and the sum stays below 2^256, and it agrees in everything but the growth |
| `LostFees.GrowthDoesNotWrap` | src/core/types/pool_state.rs:22-23 | A reachable input against the documented wrap: from an empty pool, after one deposit and one swap, the same swap again fails on growth of 2^255 + 2^255 |
| `Pools.Pool.ModifyLiquidity` | src/core/concentrated/pool.rs:330-452 | The method's result and the pool's whole new value, on success and on every error path, are those of the specification `PoolSpec.Modify`; a success keeps a reconciled pool reconciled |
| `Pools.Pool.Swap` | src/core/concentrated/pool.rs:599-620 | The method's result and the pool's whole new value are those of the specification `SwapCall.CallSwap`; a success keeps a reconciled pool reconciled |
| `Pools.Pool.QuoteSwap` | src/core/concentrated/pool.rs:627-648 | Writes nothing and returns the result a swap with the same parameters would return |
| `Pools.Pool.SwapInner` | src/core/concentrated/pool.rs:656-935 | The while loop computes exactly the recursive run of the specification, errors included; as a quote it modifies nothing |
| `Pools.Pool.TakeStep` | src/core/concentrated/pool.rs:715-900 | One loop body is one iteration of the specification, with the tick store changed exactly as specified |
| `Pools.Pool.FindTarget` | src/core/concentrated/pool.rs:727-757 | Asking the tick store by index gives the specification's next target: the nearest initialized tick in swap direction within the 256-tick word, or the word boundary |
| `Pools.Pool.CrossMutating` | src/core/concentrated/ticks/mod.rs:108-120 | A mutating crossing flips the outside growth of exactly that tick and returns its net liquidity |
| `Pools.Pool.CrossReadOnly` | src/core/concentrated/ticks/mod.rs:75-84 | A read-only crossing returns the net liquidity and changes nothing |
| `Pools.Pool.UpdateTick` | src/core/concentrated/pool.rs:517-593 | The tick map afterwards and the result are those of the specification, including the inserted tick left behind by a refusal |
| `Pools.Pool.FeeGrowthInside` | src/core/concentrated/pool.rs:480-515 | Both components are the specification's growth inside the range |
| `Pools.Pool.FinishSwap` | src/core/concentrated/pool.rs:902-934 | Amounts are converted and the state committed as specified; a conversion error commits no state |
| `Pools.Pool.constructor` | src/core/concentrated/pool.rs:284-304 | A new pool stands for the given state with no ticks and no positions |
| `Pools.OverrideApplied` | src/core/concentrated/pool.rs:600-611 | A swap with an LP fee override is the swap of a pool whose stored fee is already the overridden one |
| `Pools.TryFork` | src/core/concentrated/pool.rs:186-254 | A fork through a validated snapshot succeeds iff the pool is reconciled, its tick is the floor tick of its price and its protocol fee is valid; the copy has the same value and shares no storage |
| `PoolSnapshots.Validate` | src/core/concentrated/pool.rs:103-146 | A snapshot is accepted iff its ticks have the pool's spacing and it is a reconciled, capped pool whose tick is the floor tick of its price, with a valid protocol fee; another spacing, a bad protocol fee and a wrong tick are reported in this order, and nothing but an invalid tick or a liquidity overflow after that |
| `PoolSnapshots.SumTicks` | src/core/concentrated/pool.rs:119-137 | The ascending loop returns the sum of nets at or below the tick; on reconciled ticks none of its checks fails |
| `PoolSnapshots.ActiveFitsI128` | src/core/concentrated/pool.rs:117-137 | The per-tick cap keeps active liquidity below 2^127, so the i128 accumulator of validation cannot overflow on a reconciled pool |
| `Reconciliation.ModifyKeepsInv` | src/core/concentrated/pool.rs:330-452 | A successful liquidity change keeps the invariant: a tick is stored iff a position with liquidity ends on it, gross and net are the sums over those positions, and active liquidity is the sum over the positions around the current tick |
| `Reconciliation.UpdateTickEffect` | src/core/concentrated/pool.rs:517-593 | A successful `update_tick` changes one tick by exactly the delta, drops it iff its gross becomes zero, keeps the cap, and hands back the outside growth the tick carries |
| `Reconciliation.BoundariesEffect` | src/core/concentrated/pool.rs:357-368 | After both boundary updates every tick holds the sums over the changed positions |
| `Reconciliation.ResizedSums` | src/core/concentrated/position.rs:109-111 | Changing one position by a delta changes gross, net and active sums by that delta exactly where the position ends or is active |
| `Reconciliation.RefusedAtLowerTick` | src/core/concentrated/pool.rs:539-564 | A change refused at its lower tick is not rolled back: the pool stays reconciled iff that tick was stored already |
| `Reconciliation.RemovalFromMissingTick` | src/core/concentrated/pool.rs:539-554 | Removing liquidity at a missing tick fails and leaves the pool unreconciled |
| `FailedChanges.FailureLeavesReconciled` | src/core/concentrated/pool.rs:330-452 | After any failing liquidity change on a reconciled pool the pool is reconciled iff nothing was written yet, or the delta is zero, or the lower tick is refused but was stored, or both ticks and the position are updated and, when the range is active, the owed fees fit; so never after a refusal at the upper tick or by the position |
| `FailedChanges.PastBothTicks` | src/core/concentrated/pool.rs:395-452 | Past both ticks the result and pool are one of three: the position refuses, the owed fees do not fit, or the principal comes next |
| `ModifyEffects.OwedIsCharged` | src/core/concentrated/position.rs:113-128 | The fees a touch computes are exactly the floored accrual of the position |
| `ActiveLiquidity.ActiveIsPrefixSum` | src/core/concentrated/pool.rs:119-137 | Active liquidity at a tick equals the sum of the nets at and below it |
| `ActiveLiquidity.ActiveFits` | src/core/types/tick_spacing.rs:59-65 | With every gross within the per-tick cap the active liquidity at any tick is a u128 |
| `ActiveLiquidity.StoredTicks` | src/core/types/tick_spacing.rs:59-65 | At most as many ticks are stored as the cap formula counts |
| `PoolTypes.CapTimesTicks` | src/core/types/tick_spacing.rs:59-65 | The per-tick cap is the greatest amount whose product with the number of usable ticks stays below 2^128, and it is an i128 |
| `ActiveLiquidity.UsableTicksCounted` | src/core/types/tick_spacing.rs:59-65 | The cap's divisor is the number of aligned ticks in the tick range, plus one below it unless the lower end of the range is aligned |
| `PositionStore.PositionStore.Update` | src/core/concentrated/position.rs:99-139 | The entry afterwards and the fees or error are those of the specification, including the entry created or resized before an error |
| `PositionStore.PositionStore.ValidateAgainstTicks` | src/core/concentrated/position.rs:172-220 | Acceptance implies well-formed keys and reconciled ticks; reconciled ticks within the cap are always accepted, so no checked addition fails on them |
| `ModifyEffects.FeesAlwaysFit` | src/core/concentrated/position.rs:114-128 | The fee computation of a position update never overflows |
| `ModifyEffects.PrincipalAgainstWorth` | src/core/types/delta.rs:95-145 | The principal charged for added liquidity is at least its exact worth and the principal returned for removed liquidity at most its exact worth, each by less than one unit of the token, in both tokens and on all three sides of the range |
| `ModifyEffects.ModifySolvent` | src/core/concentrated/pool.rs:330-452 | A successful liquidity change moves the total worth of all positions by at most the principal paid in |
| `ModifyEffects.ModifyAccrued` | src/core/concentrated/position.rs:99-139 | A successful liquidity change lowers the total accrued fees by at least the fees it pays out |
| `ModifyEffects.BoundaryOutside` | src/core/concentrated/pool.rs:517-593 | The outside growth used for the fees is the one stored before and after, and other ticks keep theirs |
| `ModifyEffects.FreshTickOutside` | src/core/concentrated/pool.rs:576-582 | A tick that was not stored starts with the global growth outside if the current tick has reached it and with none otherwise, in both tokens |
| `SwapSpec.StepProgress` | src/core/concentrated/pool.rs:715-900 | Every successful iteration keeps the loop invariant (price bracketed by its tick, amount never changing sign or growing) and moves the tick strictly in swap direction, uses up the amount or reaches the limit: a real termination measure |
| `SwapSpec.TargetSide` | src/core/concentrated/pool.rs:719-757 | The target lies on the right side of the current tick and no initialized tick is skipped on the way to it, also at word boundaries |
| `SwapSpec.NextTargetIs` | src/core/concentrated/pool.rs:735-757 | The target is the nearest initialized tick up to the word boundary, or exactly that boundary iff none is initialized up to it |
| `PoolTypes.WordBoundaryIs` | src/core/concentrated/pool.rs:722-733 | The boundary is the first of the current tick's 256 compressed ticks going down, and the last of the next compressed tick's word going up, clamped to the tick range |
| `SwapSpec.NextInitializedIsNearest` | src/core/concentrated/ticks/slab.rs:253-265 | The next initialized tick is the greatest one at or below the current tick, or the least one strictly above it, and absent only if there is none |
| `Traversal.RunTraverses` | src/core/concentrated/pool.rs:715-900 | A successful run crosses exactly the initialized ticks between its first and last tick, each once and in order, keeps the price between start and limit, ends bracketed by its tick, and stops only at the limit, with the amount used up, or without liquidity |
| `Traversal.StepCrosses` | src/core/concentrated/pool.rs:855-893 | One iteration passes over its target iff it crosses it, and over no other initialized tick |
| `Traversal.StepReconciled` | src/core/concentrated/pool.rs:866-886 | An iteration keeps active liquidity equal to the sum over the positions around the tick |
| `Traversal.CrossingNeverFails` | src/core/concentrated/pool.rs:876-885 | On a reconciled pool a crossing never under- or overflows the active liquidity |
| `SwapCall.SwapDelivers` | src/core/concentrated/pool.rs:759-934 | A successful swap charges exactly the swapped input plus LP and protocol fees and delivers exactly the swapped output, never more than an exact input or output asks for, and falls short only at the limit or without liquidity |
| `SwapCall.SwapChargesFee` | src/core/math/swap.rs:64-100 | Over a whole swap LP and protocol fees together are at least the effective fee's share of everything paid |
| `SwapCall.SwapPaysProtocol` | src/core/concentrated/pool.rs:812-934 | A successful swap pays the protocol its pips of everything paid, less than one token short for every iteration; every fee when the effective fee is the protocol fee, and nothing without one |
| `SwapCall.SwapReports` | src/core/concentrated/pool.rs:599-935 | A successful swap reports the price, tick and liquidity the pool then has, and as its fee the exact combination of the call's LP fee and the protocol fee of its direction |
| `SwapCall.QuoteEqualsSwap` | src/core/concentrated/pool.rs:599-648 | A quote changes nothing and its result is that of the swap with the same parameters |
| `SwapCall.RunTwins` | src/core/concentrated/ticks/mod.rs:68-130 | Runs with mutating and with read-only tick access agree in everything but the outside growth they leave in the ticks |
| `Solvency.StepSolvent` | src/core/concentrated/pool.rs:715-900 | One iteration changes the exact worth of all positions by at most the step's net principal in each token |
| `Solvency.RunSolvent` | src/core/concentrated/pool.rs:715-900 | So does a whole run, which also stays reconciled |
| `FeeGrowth.StepInside` | src/core/concentrated/pool.rs:836-889 | One iteration changes the growth inside a range by exactly the growth it added, modulo 2^256, when the tick was inside, and not at all otherwise or in the other token |
| `FeeGrowth.GlobalGrowthInside` | src/core/concentrated/pool.rs:480-515 | Raising the global growth raises the growth inside a range by the same amount, modulo 2^256, iff the tick is inside |
| `FeeGrowth.InsideIsTheRest` | src/core/concentrated/pool.rs:480-515 | The growth inside a range is the global growth less the growth below and above it, modulo 2^256 |
| `FeeGrowth.CrossingKeepsInside` | src/core/concentrated/ticks/slab.rs:276-290 | Crossing a tick leaves the growth inside every range with stored ends unchanged: the flip and the move of the tick cancel |
| `FeeGrowth.MovingKeepsInside` | src/core/concentrated/pool.rs:480-515 | Moving the tick over no stored tick leaves the growth inside unchanged |
| `FeeGrowth.FlipAloneMovesInside` | src/core/concentrated/ticks/slab.rs:276-290 | A flip without the tick move changes the growth inside every range that ends on the tick, unless it flips the outside growth to itself |
| `FeeGrowth.StepAccrued` | src/core/concentrated/pool.rs:836-853 | One iteration raises the fees accrued by all positions by at most the LP fee it charged |
| `FeeGrowth.RunAccrued` | src/core/concentrated/pool.rs:836-853 | So does a whole run |
| `FloorTick.StepFloor` | src/core/concentrated/pool.rs:855-894 | Exactly when an iteration ends on the floor tick of its price: if it reached its target price iff it goes up, otherwise iff it moved the price or started on the floor tick |
| `FloorTick.BracketFloor` | src/core/concentrated/pool.rs:112-114 | A tick that brackets the price is its floor tick iff the price is not that of the next tick |
| `FloorTick.RunUpKeepsFloor` | src/core/concentrated/pool.rs:855-894 | An upward run keeps the stored tick on the floor tick of the price |
| `FloorTick.SwapUpKeepsRestorable` | src/core/concentrated/pool.rs:103-146 | A successful upward swap leads from a pool that validation accepts to one it accepts |
| `FloorTick.SwapDownRestorable` | src/core/concentrated/pool.rs:656-935 | A successful downward swap leads from a pool that validation accepts to one it accepts iff no iteration landed on its target with the price unmoved since, where landing is read off the inputs of the iteration |
| `FloorTick.RunDownFloor` | src/core/concentrated/pool.rs:715-900 | The same over a run from any start: on the floor tick at the end iff its last iteration that moved does not land on its target |
| `FloorTick.LandsExactly` | src/core/concentrated/pool.rs:715-900 | An iteration lands on its target tick iff the limit and the remaining amount take it there |
| `FloorTick.QuoteTellsRestorable` | src/core/concentrated/pool.rs:627-648 | A caller can tell beforehand, in either direction: the pool after the swap is accepted iff the quoted price is not the price of the tick after the quoted one |
| `FloorTick.ModifyKeepsRestorable` | src/core/concentrated/pool.rs:103-146 | So does a successful liquidity change |
| `FloorTick.DownSwapLosesFloor` | src/core/types/pool_state.rs:20-22 | Counterexample to the documented floor-tick invariant: a pool that validation accepts and a successful downward swap after which the price is that of tick 0, the stored tick is -1, and validation rejects the pool |
| `SwapMath.StepTotalAndSound` | src/core/math/swap.rs:142-394 | For valid prices, non-zero liquidity and a valid fee a step fails only for an exact output at a 100% fee; the new price lies between current and target, the input covers and the output stays within the exact amounts of the move, nothing more than the remaining amount is used, a step short of its target uses all of it, and the fee covers its share |
| `SwapMath.StepExact` | src/core/math/swap.rs:142-394 | Every number of a step is the exact one for its case: the output is the rounded-down amount of the move or the whole request, the input the rounded-up amount of the move or the whole net input, the fee the rounded-up fee on that input or the whole rest, and the target is reached iff the net input or the request pays for the whole range. Short of the target an input moves the price as far as it covers and not one unit further (downwards, where the denominator does not fit, to the fallback quotient), and an output to the nearest price that yields it |
| `SwapMath.ReachesDownExact` | src/core/math/swap.rs:142-394 | A downward step ends on its target iff the net input is at least the rounded-up amount of the move, or the requested output at least the rounded-down one or within one price unit of it |
| `SwapMath.RoundedAmounts` | src/core/math/sqrt_price.rs:472-631 | Rounded up, an amount is the least that covers a price move; rounded down, the greatest within it |
| `SwapMath.LessFeeExact` | src/core/math/swap.rs:64-77 | The input less its fee is the exact floor and at most the input |
| `SwapMath.FeeOnInputRounded` | src/core/math/swap.rs:90-100 | The fee on an input is the exact ceiling with the width check, and the whole input at 100% |
| `Fees.CombinedFeeBounds` | src/core/types/fee/protocol_fee.rs:126-147 | The combined fee exists, is at least either part and at most 1,000,000 pips |
| `Fees.CombinedFeeExact` | src/core/types/fee/protocol_fee.rs:126-147 | The combined fee charges the LP fee on what the protocol fee of the direction leaves, the overlap floored |
| `Fees.CachedFeesExact` | src/core/types/fee/swap_fee.rs:51-101 | Both cached effective fees are that exact combination for their own direction |
| `Fees.SettersKeepCaches` | src/core/types/fee/swap_fee.rs:110-151 | Setters keep the cached effective fees right and fail only for an LP fee above 100% |
| `Fees.RebuiltFee` | src/core/types/fee/swap_fee.rs:51-67 | Rebuilding a fee configuration from its stored parts gives it back |
| `Fees.EffectiveFeeCoversProtocol` | src/core/types/fee/swap_fee.rs:95-101 | With a resolved LP fee the effective fee is at least the protocol fee |
| `Fees.ProtocolSplitSound` | src/core/concentrated/pool.rs:812-834 | LP share plus protocol share is the fee; on a sound step the protocol share never exceeds the fee, so only the two width checks can fail |
| `Fees.ProtocolShareExact` | src/core/concentrated/pool.rs:812-834 | The protocol's cut of a step is the floored pips of everything paid, the whole fee when the effective fee is the protocol fee, and zero at zero pips; the LPs get the rest |
| `FullMath.ModInv` | src/core/math/full.rs:52-72 | Six Newton steps from the seed give d*inv = 1 modulo 2^256 for every odd d |
| `FullMath.Refine` | src/core/math/full.rs:59-69 | A Newton step doubles the number of correct bits |
| `FullMath.MulDivCore` | src/core/math/full.rs:86-145 | On a 512-bit product the core returns the exact quotient and whether a remainder was dropped, with Overflow iff the quotient needs more than 256 bits |
| `FullMath.DivideOutPowersOfTwo` | src/core/math/full.rs:120-142 | Once the remainder is subtracted, shifting out the powers of two and multiplying by the inverse divides exactly |
| `FullMath.MulDiv` | src/core/math/full.rs:155-189 | The floor of a*b/d for all 256-bit inputs, with ZeroDenominator iff d = 0 and Overflow iff the result is 2^256 or more |
| `FullMath.MulDivRoundingUp` | src/core/math/full.rs:197-228 | The ceiling, with the same error conditions on the ceiling |
| `FullMath.MulQ96DivExact` | src/core/math/full.rs:246-326 | The Q96 form agrees with `mul_div` at b = 2^96, errors included |
| `FullMath.MulQ96DivRoundingUpExact` | src/core/math/full.rs:339-416 | The rounding-up Q96 form agrees with `mul_div_rounding_up` at b = 2^96, errors included |
| `FullMath.ShiftedLowWordExact` | src/core/math/full.rs:120-135 | Joining the shifted words gives the low word of the shifted 512-bit product |
| `SmallRatio.DivStepExact` | src/core/math/small_ratio.rs:8-21 | One limb of the long division extends quotient and remainder exactly, keeps the remainder below the divisor and the limb quotient below 2^64 |
| `SmallRatio.FullExact` | src/core/math/small_ratio.rs:68-103 | The full limb path returns exact quotient and remainder, with Overflow iff the quotient needs more than 256 bits |
| `SmallRatio.Low128Exact` | src/core/math/small_ratio.rs:49-65 | The two-limb path returns exact quotient and remainder |
| `SmallRatio.Low64Exact` | src/core/math/small_ratio.rs:37-46 | The one-limb path returns exact quotient and remainder |
| `SmallRatio.MulDivRemExact` | src/core/math/small_ratio.rs:106-134 | Whatever path the limb widths select, the result is the exact quotient and remainder of amount*n/d with Overflow iff the quotient is 2^256 or more |
| `SmallRatio.FloorExact` | src/core/math/small_ratio.rs:138-145 | The u32 floor form is the exact floor, errors included |
| `SmallRatio.CeilExact` | src/core/math/small_ratio.rs:149-157 | The u32 ceiling form is the exact ceiling, errors included |
| `SqrtPriceMath.GetAmount0Exact` | src/core/math/sqrt_price.rs:472-504 | Every width path returns the exactly rounded token0 amount of a price range and the exact liquidity product; it never fails |
| `SqrtPriceMath.GetAmount1Exact` | src/core/math/sqrt_price.rs:600-631 | Every width path returns the exactly rounded token1 amount and the exact product |
| `SqrtPriceMath.NextFromAmount0AddExact` | src/core/math/sqrt_price.rs:171-263 | Every width path returns the exact rounded-up price while the denominator fits; otherwise the fallback; a returned price is never below the exact one and never above the start price |
| `SqrtPriceMath.FallbackBounds` | src/core/math/sqrt_price.rs:267-291 | The fallback succeeds iff its quotient is a valid price, and its quotient lies between the exact price and the start price |
| `SqrtPriceMath.NextFromAmount0SubExact` | src/core/math/sqrt_price.rs:299-338 | The exact rounded-up price, with insufficient reserves iff the amount takes all of them and overflow iff the quotient exceeds 256 bits or the price bounds |
| `SqrtPriceMath.Amount1QuotientExact` | src/core/math/sqrt_price.rs:111-162 | Every width path returns the exact quotient; refused are exactly the quotients of 2^160 or more of amounts of 2^160 or more |
| `SqrtPriceMath.NextFromAmount1AddExact` | src/core/math/sqrt_price.rs:412-427 | Start price plus the floored quotient, succeeding iff that is a valid price |
| `SqrtPriceMath.NextFromAmount1SubExact` | src/core/math/sqrt_price.rs:434-456 | Start price minus the rounded-up quotient, succeeding iff that is a valid price |
| `Deltas.ConversionsExact` | src/core/types/delta.rs:246-278 | The limb tests accept exactly the amounts an i128 can hold with the given sign, 2^127 included on the negative side, and return that amount |
| `TickMath.WideningMulExact` | src/core/math/tick.rs:46-116 | The four-limb product is the exact 256-bit product, and the high half alone is its floor by 2^128 |
| `TickMath.NoColumnOverflows` | src/core/math/tick.rs:46-116 | The limb products, the carry column and the high half with its partial sums stay below 2^128 |
| `TickMath.SMulExact` | src/core/math/tick.rs:123-136 | The signed product is exact, with its high half rounded down |
| `TickMath.RefineLog2` | src/core/math/tick.rs:178-183 | r stays in [2^127, 2^128), the integer part is kept, and the 14 extracted bits F satisfy r0^(2^14) >= 2^(127*2^14 + F) and (r0 + 1)^(2^14) < 2^(127*2^14 + F + 2) |
| `TickMath.Log2` | src/core/math/tick.rs:161-183 | For every ratio the signed result is (L - 128*2^14)*2^50 for an L with 2^L <= ratio^(2^14) < 2^(L + 2): in units of 2^-14 never above the true logarithm, and short of it by less than two |
| `TickSlabIndexer.FromTickIs` | src/core/types/tick_slab_indexer.rs:27-39 | The masked, sign-flipped index is floor(tick / spacing) plus a fixed offset, inside the index range |
| `TickSlabIndexer.ToTickIs` | src/core/types/tick_slab_indexer.rs:47-60 | Every index of the range decodes to its offset times the spacing |
| `TickSlabIndexer.IndexRoundTrip` | src/core/types/tick_slab_indexer.rs:27-60 | `to_tick` inverts `from_tick` on aligned ticks and floors any other tick to its spacing |
| `TickSlabIndexer.TickRoundTrip` | src/core/types/tick_slab_indexer.rs:27-60 | `from_tick` inverts `to_tick` |
| `TickSlabIndexer.IndexOrder` | src/core/types/tick_slab_indexer.rs:27-39 | Indexes are ordered as their ticks, exactly so against an aligned tick |
| `TickSlabIndexer.PartsRoundTrip` | src/core/types/tick_slab_indexer.rs:64-80 | Packing and unpacking page and slot are inverse |
| `TickSlabIndexer.CacheCapBounds` | src/core/types/tick_spacing.rs:70-72 | The cache capacity ends with the page of the greatest tick; it is at most 60,496, below the u16::MAX sentinel, and within the index range by whole pages |
| `TickSlabIndexer.HalfSpan` | src/core/types/tick_slab_indexer.rs:27-39 | Half of the index range is the power of two h with 2^20 <= h * spacing < 2^21 |
| `TickSlabIndexer.PageInCache` | src/core/types/tick_spacing.rs:70-72 | The page of every tick lies below the capacity |
| `HierBitmaps.HierBitmap.constructor` | src/core/concentrated/ticks/bitmap.rs:41-51 | A new bitmap is the empty set |
| `HierBitmaps.HierBitmap.Contains` | src/core/concentrated/ticks/bitmap.rs:58-68 | Membership, also for keys at or above the capacity |
| `HierBitmaps.HierBitmap.Set` | src/core/concentrated/ticks/bitmap.rs:74-116 | Adds the key if it is below the capacity, reports exactly whether the set changed, and keeps both summary layers |
| `HierBitmaps.HierBitmap.Remove` | src/core/concentrated/ticks/bitmap.rs:122-163 | Removes the key, reports exactly whether the set changed, and keeps both summary layers |
| `HierBitmaps.HierBitmap.Next` | src/core/concentrated/ticks/bitmap.rs:168-172 | The least member strictly above any u16 key, or none iff there is none |
| `HierBitmaps.HierBitmap.NextOrEq` | src/core/concentrated/ticks/bitmap.rs:177-179 | The least member at or above any u16 key |
| `HierBitmaps.HierBitmap.Prev` | src/core/concentrated/ticks/bitmap.rs:185-194 | The greatest member strictly below any u16 key, also above the capacity |
| `HierBitmaps.HierBitmap.PrevOrEq` | src/core/concentrated/ticks/bitmap.rs:200-209 | The greatest member at or below any u16 key |
| `HierBitmaps.HierBitmap.NextFrom` | src/core/concentrated/ticks/bitmap.rs:216-268 | The three-level forward search finds the least member from an inclusive start |
| `HierBitmaps.HierBitmap.PrevFrom` | src/core/concentrated/ticks/bitmap.rs:274-325 | The three-level backward search finds the greatest member up to an inclusive start |
| `HierBitmaps.AfterSet` | src/core/concentrated/ticks/bitmap.rs:96-115 | Which layers a set changes, and that bit of a layer is set iff the word below is not zero |
| `HierBitmaps.AfterClear` | src/core/concentrated/ticks/bitmap.rs:142-162 | Which layers a removal changes, and that the summaries stay exact |
| `HierBitmaps.MaskBits` | src/core/concentrated/ticks/bitmap.rs:346-376 | Which positions each mask helper keeps |
| `TickPages.TickPage.Insert` | src/core/concentrated/ticks/slab_value.rs:66-70 | Adds or replaces exactly one slot of the page |
| `TickPages.TickPage.Get` | src/core/concentrated/ticks/slab_value.rs:76-82 | Returns the slot iff it is occupied |
| `TickPages.TickPage.Remove` | src/core/concentrated/ticks/slab_value.rs:101-103 | Clears exactly one slot |
| `TickPages.TickPage.NextSlot` | src/core/concentrated/ticks/slab_value.rs:118-133 | The least occupied slot strictly above |
| `TickPages.TickPage.PrevSlot` | src/core/concentrated/ticks/slab_value.rs:148-163 | The greatest occupied slot strictly below |
| `TickPages.TickPage.FirstSlot` | src/core/concentrated/ticks/slab_value.rs:174-181 | The least occupied slot |
| `TickPages.TickPage.LastSlot` | src/core/concentrated/ticks/slab_value.rs:193-200 | The greatest occupied slot |
| `TickPages.TickPage.Initialized` | src/core/concentrated/ticks/slab_value.rs:57-59 | The count is zero iff the page is empty |
| `PageAllocator.PageAllocator.Insert` | src/core/concentrated/ticks/slab.rs:401-408 | A new page gets a key not in use; the store grows only when every cell is in use |
| `PageAllocator.PageAllocator.TryRemove` | src/core/concentrated/ticks/slab.rs:461-461 | Removing a key frees exactly that page and chains its cell for reuse |
| `PageChain.AddKeepsLinks` | src/core/concentrated/ticks/slab.rs:382-399 | Linking a new empty page between its neighbours keeps every link on the neighbouring page and the stored ticks unchanged |
| `PageChain.DropKeepsLinks` | src/core/concentrated/ticks/slab.rs:339-351 | Unlinking an empty page keeps every link on the neighbouring page and the stored ticks unchanged |
| `PageChain.NextInLaterPage` | src/core/concentrated/ticks/slab.rs:184-201 | When a page holds nothing above an index, the first slot of the next page is the next stored tick |
| `PageChain.PrevInEarlierPage` | src/core/concentrated/ticks/slab.rs:224-241 | When a page holds nothing below an index, the last slot of the previous page is the previous stored tick |
| `TickSlabs.TickSlab.constructor` | src/core/concentrated/ticks/slab.rs:82-94 | A new store is the empty map |
| `TickSlabs.TickSlab.Insert` | src/core/concentrated/ticks/slab.rs:134-152 | Puts the entry into the map, or refuses an index beyond the last page and changes nothing; all index structures stay consistent |
| `TickSlabs.TickSlab.Get` | src/core/concentrated/ticks/slab.rs:155-158 | Map lookup |
| `TickSlabs.TickSlab.Next` | src/core/concentrated/ticks/slab.rs:172-202 | The first entry strictly above any index |
| `TickSlabs.TickSlab.Prev` | src/core/concentrated/ticks/slab.rs:212-242 | The last entry strictly below any index |
| `TickSlabs.TickSlab.NextInitializedTick` | src/core/concentrated/ticks/slab.rs:253-265 | The last entry at or below, or the first strictly above, the index |
| `TickSlabs.TickSlab.CrossTick` | src/core/concentrated/ticks/slab.rs:276-290 | Flips the outside growth of exactly that entry and returns its net liquidity; a missing tick is reported and nothing changes |
| `TickSlabs.TickSlab.UpdateInitializedTick` | src/core/concentrated/ticks/slab.rs:300-317 | Replaces exactly that entry's accounting by what the update makes of it, also when the update reports an error; a missing tick is reported and nothing changes |
| `TickSlabs.TickSlab.Remove` | src/core/concentrated/ticks/slab.rs:324-352 | Removes exactly that entry; an emptied page is unlinked and freed |
| `TickSlabs.TickSlab.InsertEmptySlab` | src/core/concentrated/ticks/slab.rs:356-414 | An empty page is linked, entered in bitmap, allocator and table, and the map is unchanged |
| `TickSlabs.TickSlab.RemoveSlab` | src/core/concentrated/ticks/slab.rs:451-462 | The page leaves table, bitmap and allocator and is returned |
| `TickSlabs.TickSlab.KeyBelowSentinel` | src/core/concentrated/ticks/slab.rs:405-426 | Allocator keys stay below the cache capacity and so never equal the sentinel |
| `TickSlabs.TickSlab.PagesFit` | src/core/concentrated/ticks/slab.rs:401-408 | While a page is missing the allocator holds fewer pages than the table has places |
| `TickCodec.NearestTick` | src/core/concentrated/ticks/slab.rs:253-265 | The nearest entry by index is the nearest tick by number, also from an unaligned tick |
| `TickCodec.TicksRoundTrip` | src/core/concentrated/ticks/slab.rs:469-488 | Encoding aligned ticks into the store's map and decoding them gives them back |
| `TickCodec.InfosRoundTrip` | src/core/concentrated/ticks/slab.rs:504-532 | Decoding a store's map and encoding it again gives it back |
| `TickSnapshots.Snapshot` | src/core/concentrated/ticks/slab.rs:469-488 | The loops over pages and slots return the accounting of exactly the stored ticks, by tick number |
| `TickSnapshots.FromSnapshot` | src/core/concentrated/ticks/slab.rs:504-532 | Succeeds iff every entry passes its checks, then holds exactly those ticks; otherwise reports the error of the lowest failing tick |
| `TickSnapshots.EntryAccepted` | src/core/concentrated/ticks/slab.rs:504-532 | An entry passes iff its tick is aligned, its gross is positive and within the cap and its net is no more than its gross; the cap alone reports a liquidity overflow, everything else an invalid tick |
| `TickSnapshots.Rebuild` | src/core/concentrated/ticks/slab.rs:469-532 | Saving and rebuilding gives a separate store with the same contents |
| `StablePair.OneFeePerBlock` | src/v4/stable_pair.rs:102-126 | Over any run of calls with ascending blocks, every block has one fee per direction whatever the pool's price does inside it, every fee is at most 999,998 pips, and the stored fee stays consistent with the stored price |
| `StablePair.LaterCall` | src/v4/stable_pair.rs:102-126 | A later call of a block writes nothing and is charged what the block's first call would have been charged in its direction |
| `StablePair.CallExact` | src/v4/stable_pair.rs:102-170 | A whole call from any stored state: which price it looks at, inside the range the fee that puts the effective price on the boundary, outside it nothing away from the reference and the decaying fee towards it, in pips rounded up and capped at 999,998, and the state written by the first call of a block only |
| `StablePair.OpeningFeeExact` | src/v4/stable_pair.rs:171-209 | The fee a block opens with outside the range: the target is the far fee less the multiplier's percentage of the close one, the start is the far fee after a time inside or a change of side, the fee pinning the effective price when the price moved away and else the smaller of stored and far fee, and of the way from start to target the decay factor remains; every quotient rounded down once |
| `StablePair.CallSound` | src/v4/stable_pair.rs:127-170 | Outside the optimal range a swap away from the reference pays nothing and one towards it the decaying fee; the fee is a proper fraction and the next state is consistent |
| `StablePair.FeesInRange` | src/v4/stable_pair.rs:127-300 | From every state whose fee is at most the sentinel the charged fee lies between zero and the stored one, and that one between zero and the sentinel |
| `StablePair.InsideMeans` | src/v4/stable_pair.rs:246-251 | The rounded test is exact: a price is outside iff its ratio is below one minus the optimal fee |
| `StablePair.InsideIsNear` | src/v4/stable_pair.rs:240-251 | Inside, the true price quotient is at least one minus the optimal fee |
| `StablePair.InsidePinned` | src/v4/stable_pair.rs:253-266 | Inside, the fee puts the effective price on the boundary the swap moves towards, by less than one unit of 1e-12 |
| `StablePair.AdjustedPinned` | src/v4/stable_pair.rs:275-277 | When the price moves away the fee rises just so much that the effective price stays where it was, by less than one unit |
| `StablePair.BoundaryFees` | src/v4/stable_pair.rs:246-273 | The close boundary fee never exceeds the far one, and that one is a fraction |
| `StablePair.BoundariesExact` | src/v4/stable_pair.rs:246-273 | Close and far boundary fee leave exactly the floored quotient, and the floored product, of ratio and one minus the optimal fee |
| `StablePair.NewFeeBetween` | src/v4/stable_pair.rs:171-209 | The target lies between far minus close and far, the start between zero and one; the fee of a block opened outside lies between the target and the larger of start and target |
| `StablePair.WaitingLowersFee` | src/v4/stable_pair.rs:171-296 | Waiting one more block, up to four, never raises the fee a block opens with |
| `StablePair.FastFactorExact` | src/v4/stable_pair.rs:279-285 | Up to four blocks the factor is (k/2^24)^blocks in Q24, rounded down once |
| `StablePair.RatioBounds` | src/v4/stable_pair.rs:240-244 | A price ratio is at most one, and one only for equal prices |
| `StablePair.RatioExact` | src/v4/stable_pair.rs:240-244 | A ratio is the square of the quotient of smaller and larger root price in Q48, rounded down before squaring |
| `StablePair.AcceptedRangeInBounds` | src/v4/stable_pair.rs:212-229 | An accepted reference keeps both ends of its optimal range inside the protocol's price range |
| `StablePair.AcceptedExactly` | src/v4/stable_pair.rs:212-229 | Exactly which configurations are accepted, as products without rounding |
| `StablePair.StablePairHook.BeforeSwapFee` | src/v4/stable_pair.rs:102-126 | Fee and new state are those of the specification `StablePair.BeforeSwap` |
| `StablePair.TryNew` | src/v4/stable_pair.rs:87-90 | Succeeds iff the configuration is accepted, with the given state |

## Left out

- The numeric tick constants: `TICK_RATIOS`, `LOG_MUL`, the bracket offsets, and that the bracket of `get_tick_at_sqrt_price` resolves to the floor tick. An arbitrary strictly increasing price grid takes their place.
- Pools.Pool.Swap: requires the price limit strictly inside the price range, as `src/core/types/params.rs:65-66` documents for callers.
- Pools.Pool.QuoteSwap: requires the same of its price limit.
- Pools.Pool.SwapInner: requires the same of its price limit.
- PoolSnapshots.Validate: does not say which of two failing checks on ticks or positions is reported first; positions are visited in no fixed order.
- Fee accounting after failed swaps. `SwapErrors.FailedSwapKeepsInv` keeps the pool reconciled, but ticks crossed by then stay flipped while price and tick have not moved; `FeeGrowth.FlipAloneMovesInside` says when one such flip changes the growth inside a range. What positions are owed after it is not stated.
- `Pool<()>`, the pool without positions, has no reconciliation theorem; the step, traversal and quote theorems do not depend on positions.
- A swap on a dynamic pool with no resolved LP fee and a non-zero protocol fee is specified as the code behaves; no fee bound is claimed for it.
- Histories.HistorySolvent: counts operations with their arguments as given; who the callers are, token transfers and the pool manager's per-currency accounting are not modelled.
- PositionStore.PositionStore.ValidateAgainstTicks: acceptance of reconciled ticks is stated for ticks within the per-tick cap; above it the i128 and u128 checks may refuse depending on the map's iteration order, which is not modelled.
- The allocator of the `slab` crate is not part of the repository; `PageAllocator` models its key discipline (free cells chained last in, first out).
- TickSlabs.TickSlab.InsertEmptySlab: requires the page to be absent; its only caller, `insert`, never asks for a page that exists.
- `quote_modify_liquidity`, `amount_in`/`amount_out` helpers, `BeforeSwapDelta` and delta addition: direct formulas.
- `get_sqrt_price_at_tick`: a product of fixed constants.
- `exp_wad`, `ln_wad` and `derive_log_k` of the stable-pair hook: magic-number approximations. For gaps of five blocks or more any decay factor of at most one takes their place, a parameter of each call.
- StablePair.StablePairHook.BeforeSwapFee: requires the stored fee to be at most the sentinel. `new` does not check it; the states the hook itself writes always satisfy it.
- StablePair.WaitingLowersFee: stops at gaps of four blocks, where the approximated factor takes over.
- Hooks, `SinglePoolManager`, the v3 facade, pool-key hashing, serialization formats, macros, benches, `xtask` and scripts.
- Agreement with deployed contracts across zero-liquidity gaps: this loop stops there, and so does the model.
