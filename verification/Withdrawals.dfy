/**
  When a position can take out its liquidity and its fees.  The pool always
  holds the tokens; what can stand in the way is only the signed 128-bit width
  of the payments, and fees that do not fit are lost.
*/
module Withdrawals {
  import opened Arith
  import opened Bits
  import opened Words
  import opened Wrappers
  import opened SqrtPriceMath
  import opened SwapMath
  import opened PoolTypes
  import opened PoolSpec
  import opened Reconciliation
  import opened ActiveLiquidity
  import opened Solvency
  import opened FeeGrowth
  import opened ModifyEffects
  import opened Histories
  import opened FailedChanges

  /** What removing an amount of a position's liquidity pays out in one token: its worth, floored. */
  ghost function Returned(grid: Grid, price: Price, k: PositionKey, amount: nat, token0: bool): nat {
    var low, high := grid(k.lower), grid(k.upper);
    var at := ClampPrice(price, low, high);
    if token0 then Amount0(at, high, amount, false) else Amount1(low, at, amount, false)
  }

  /** All four payments are signed 128-bit amounts. */
  ghost predicate PaymentsFit(grid: Grid, pool: PoolValue, k: PositionKey, amount: nat) {
    && FeesFit(pool, k)
    && Returned(grid, pool.state.price, k, amount, true) < W127
    && Returned(grid, pool.state.price, k, amount, false) < W127
  }

  /** Part or all of a position's liquidity, or none of it: a collection of its fees. */
  ghost predicate IsRemoval(pool: PoolValue, params: ModifyParams) {
    && params.key in pool.positions && pool.positions[params.key].liquidity > 0
    && 0 - pool.positions[params.key].liquidity <= params.delta <= 0
  }

  // -------------------------------------------------------- one withdrawal

  /** The ends of a position carry at least its liquidity, so neither refuses its removal. */
  lemma RemovalPassesTicks(grid: Grid, pool: PoolValue, spacing: Spacing, params: ModifyParams)
    requires PoolInv(grid, spacing, pool) && IsRemoval(pool, params)
    ensures CheckTicks(params.key.lower, params.key.upper, spacing).None?
    ensures UpdateBoundaries(pool, spacing, params).Boundaries?
  {
    hide Aligned, GrossAt, NetAt, ActiveAt, MaxLiquidityPerTick, Bracket, UpdateTick, Capped, Reconciled;
    var (lower, upper, delta) := (params.key.lower, params.key.upper, params.delta);
    var m := pool.positions;
    if delta < 0 {
      EndAllowsRemoval(pool, spacing, params, lower);
      EndAllowsRemoval(pool, spacing, params, upper);
      ReconciledHolds(pool, spacing, lower);
      var low := UpdateTick(pool.ticks, pool.state, spacing, lower, delta, false);
      RemovalAccepted(pool.ticks, pool.state, spacing, lower, delta, false, GrossAt(m, lower), NetAt(m, lower));
      UpdateTickEffect(pool.ticks, pool.state, spacing, lower, delta, false, GrossAt(m, lower), NetAt(m, lower));
      HoldsElsewhere(pool.ticks, low.ticks, lower, upper, GrossAt(m, upper), NetAt(m, upper),
                     MaxLiquidityPerTick(spacing));
      RemovalAccepted(low.ticks, pool.state, spacing, upper, delta, true, GrossAt(m, upper), NetAt(m, upper));
    }
  }

  /** At an end of the position gross and net stay in range without the removed liquidity. */
  lemma EndAllowsRemoval(pool: PoolValue, spacing: Spacing, params: ModifyParams, t: int)
    requires Reconciled(pool.ticks, pool.positions) && Capped(pool.ticks, spacing) && IsRemoval(pool, params)
    requires params.key.lower < params.key.upper && (t == params.key.lower || t == params.key.upper)
    ensures var (gross, net) := (GrossAt(pool.positions, t), NetAt(pool.positions, t));
            && Holds(pool.ticks, t, gross, net, MaxLiquidityPerTick(spacing))
            && 0 <= gross + params.delta <= gross < W127
            && 0 - W127 < (if t == params.key.upper then net - params.delta else net + params.delta) < W127
  {
    hide GrossAt, NetAt, MaxLiquidityPerTick, Resized;
    var (m, k, delta) := (pool.positions, params.key, params.delta);
    var m' := m[k := m[k].(liquidity := m[k].liquidity + delta)];
    SumBounds(m, t);
    SumBounds(m', t);
    assert Resized(m, m', k, delta) by {
      ShrunkEntry(m, k, delta);
    }
    ResizedSums(m, m', k, delta, t);
    ReconciledHolds(pool, spacing, t);
    CapTimesTicks(spacing);
  }

  lemma ShrunkEntry(m: Positions, k: PositionKey, delta: int)
    requires k in m && 0 <= m[k].liquidity + delta < W128
    ensures Resized(m, m[k := m[k].(liquidity := m[k].liquidity + delta)], k, delta)
  {
  }

  lemma RemovalAccepted(ticks: Ticks, state: PoolState, spacing: Spacing, t: int, delta: int, upper: bool, gross: int,
                        net: int)
    requires Holds(ticks, t, gross, net, MaxLiquidityPerTick(spacing)) && delta < 0
    requires 0 <= gross + delta <= gross < W127
    requires 0 - W127 < (if upper then net - delta else net + delta) < W127
    ensures UpdateTick(ticks, state, spacing, t, delta, upper).TickUpdated?
  {
    hide MaxLiquidityPerTick;
    TwiceW127();
  }

  /** The principal of a removal is the floored worth in both tokens, refused iff one of them is too wide. */
  lemma PrincipalOfRemoval(grid: Grid, k: PositionKey, tick: int, p: Price, delta: I128)
    requires Bracket(grid, tick, p) && k.lower < k.upper && delta < 0
    ensures var (amount0, amount1) := (Returned(grid, p, k, Abs(delta), true), Returned(grid, p, k, Abs(delta), false));
            Principal(tick, k.lower, k.upper, p, grid(k.lower), grid(k.upper), delta)
            == if amount0 < W127 && amount1 < W127 then Ok((amount0, amount1)) else Err(AmountOverflow)
  {
    hide GetAmount0Delta, GetAmount1Delta, Amount0, Amount1, IsGrid, ClampPrice, Bracket;
    var low, high := grid(k.lower), grid(k.upper);
    I128AbsFits(delta);
    ClampByTick(grid, k, tick, p);
    var at := ClampPrice(p, low, high);
    GetAmount0Exact(at, high, Abs(delta), false);
    GetAmount1Exact(low, at, Abs(delta), false);
    NoAmounts(high, Abs(delta));
    NoAmounts(low, Abs(delta));
    PositiveHalfWord();
  }

  lemma PositiveHalfWord()
    ensures 0 < W127
  {
  }

  lemma NothingReturned(grid: Grid, p: Price, k: PositionKey, token0: bool)
    ensures Returned(grid, p, k, 0, token0) == 0
  {
    hide ClampPrice, IsGrid, Amount0, Amount1;
    var at := ClampPrice(p, grid(k.lower), grid(k.upper));
    AmountsOfNothing(at, grid(k.upper));
    AmountsOfNothing(grid(k.lower), at);
  }

  lemma AmountsOfNothing(a: Price, b: Price)
    ensures Amount0(a, b, 0, false) == 0 && Amount1(a, b, 0, false) == 0
  {
    hide Pow2, RoundDiv, Width;
    PriceProductPositive(a, b);
    ZeroTimes(Width(a, b), Q96, 0);
    ZeroAmounts(a * b, false);
    ZeroAmounts(Pow2(96), false);
  }

  /**
    A withdrawal, in full or in part, or a collection of fees, pays exactly the
    floored worth and the owed fees; it fails iff one of these amounts does not
    fit in a signed 128-bit integer.
  */
  lemma WithdrawalSucceeds(grid: Grid, pool: PoolValue, spacing: Spacing, params: ModifyParams)
    requires PoolInv(grid, spacing, pool) && IsRemoval(pool, params)
    ensures var (key, amount) := (params.key, 0 - params.delta);
            && Owed(pool, key, true) >= 0 && Owed(pool, key, false) >= 0
            && Modify(grid, pool, spacing, params).0
               == if PaymentsFit(grid, pool, key, amount)
                  then Ok(ModifyResult(Returned(grid, pool.state.price, key, amount, true),
                                       Returned(grid, pool.state.price, key, amount, false),
                                       Owed(pool, key, true), Owed(pool, key, false)))
                  else Err(AmountOverflow)
  {
    hide UpdateBoundaries, PoolInv, Aligned, Owed, Modify, Principal, TouchedInside, ActiveAt, Returned, CheckTicks,
         IsActive, Bracket;
    var key := params.key;
    RemovalPassesTicks(grid, pool, spacing, params);
    OrderedTicks(key, spacing);
    OwedIsCharged(grid, pool, spacing, params, true);
    OwedIsCharged(grid, pool, spacing, params, false);
    PastBothTicks(grid, pool, spacing, params);
    if params.delta == 0 {
      NothingReturned(grid, pool.state.price, key, true);
      NothingReturned(grid, pool.state.price, key, false);
      PositiveHalfWord();
    } else {
      CommitFits(grid, pool, spacing, params);
      InvBracket(grid, pool, spacing);
      PrincipalOfRemoval(grid, key, pool.state.tick, pool.state.price, params.delta);
    }
  }

  lemma OrderedTicks(key: PositionKey, spacing: Spacing)
    requires CheckTicks(key.lower, key.upper, spacing).None?
    ensures key.lower < key.upper
  {
  }

  /** The active liquidity after a removal is in range. */
  lemma CommitFits(grid: Grid, pool: PoolValue, spacing: Spacing, params: ModifyParams)
    requires PoolInv(grid, spacing, pool) && IsRemoval(pool, params)
    requires CheckTicks(params.key.lower, params.key.upper, spacing).None?
    requires UpdateBoundaries(pool, spacing, params).Boundaries?
    ensures 0 <= pool.state.liquidity + (if IsActive(pool.state.tick, params.key) then params.delta else 0) < W128
  {
    hide UpdateBoundaries, PoolInv, Aligned, ActiveAt, CheckTicks, IsActive, Resized;
    var (m, k, delta) := (pool.positions, params.key, params.delta);
    ShrunkEntry(m, k, delta);
    var m' := m[k := m[k].(liquidity := m[k].liquidity + delta)];
    ResizedReconciles(grid, pool, spacing, params,
                      PoolValue(pool.state, UpdateBoundaries(pool, spacing, params).ticks, m'));
  }

  // -------------------------------------------------------------- lost fees

  /** A touch moves the checkpoint to the present, whether or not its fees can be paid. */
  lemma NothingOwedAfterTouch(grid: Grid, pool: PoolValue, spacing: Spacing, params: ModifyParams, token0: bool)
    requires PoolInv(grid, spacing, pool) && IsRemoval(pool, params) && params.delta == 0
    ensures var touched := pool.(positions := pool.positions[params.key := Touched(pool, spacing, params)]);
            Owed(touched, params.key, token0) == 0
  {
    hide *;
    var k := params.key;
    RemovalParts(grid, pool, spacing, params);
    var entry := Touched(pool, spacing, params);
    var touched := pool.(positions := pool.positions[k := entry]);
    TouchedEntry(pool, spacing, params);
    BoundaryOutside(pool, spacing, params, token0);
    EndsAreStored(pool.ticks, pool.positions, k);
    TouchedInsideIs(pool, spacing, params, pool.ticks, token0);
    AccruedDef(touched, k, token0);
    StartsFromZero(entry, TouchedInside(pool, spacing, params, token0), token0);
    OwedDef(touched, k, token0);
    NothingShared();
  }

  lemma RemovalParts(grid: Grid, pool: PoolValue, spacing: Spacing, params: ModifyParams)
    requires PoolInv(grid, spacing, pool) && IsRemoval(pool, params)
    ensures Reconciled(pool.ticks, pool.positions) && Capped(pool.ticks, spacing)
    ensures params.key in pool.positions && pool.positions[params.key].liquidity > 0
    ensures params.key.lower < params.key.upper
    ensures 0 <= LiquidityOf(pool.positions, params.key) + params.delta < W128
    ensures params.delta == 0 ==> UpdateBoundaries(pool, spacing, params).Boundaries?
  {
    hide Reconciled, Capped, ActiveAt, Bracket, Aligned;
  }

  lemma TouchedEntry(pool: PoolValue, spacing: Spacing, params: ModifyParams)
    requires 0 <= LiquidityOf(pool.positions, params.key) + params.delta < W128
    ensures var entry := Touched(pool, spacing, params);
            && entry.liquidity == LiquidityOf(pool.positions, params.key) + params.delta
            && entry.last0 == TouchedInside(pool, spacing, params, true)
            && entry.last1 == TouchedInside(pool, spacing, params, false)
  {
    hide TouchedInside;
  }

  /**
    Fees of 2^127 or more cannot be collected: the call fails, but the
    checkpoint has moved, and collecting again pays nothing.
  */
  lemma WideFeesAreLost(grid: Grid, pool: PoolValue, spacing: Spacing, params: ModifyParams)
    requires PoolInv(grid, spacing, pool) && IsRemoval(pool, params) && params.delta == 0
    requires !FeesFit(pool, params.key)
    ensures var (r, pool') := Modify(grid, pool, spacing, params);
            && r == Err(AmountOverflow) && PoolInv(grid, spacing, pool')
            && pool'.positions[params.key].liquidity == pool.positions[params.key].liquidity
            && Modify(grid, pool', spacing, params).0 == Ok(ModifyResult(0, 0, 0, 0))
  {
    hide PoolInv, Aligned, Owed, Modify, Returned, CheckTicks, TouchedInside, UpdateBoundaries;
    var key := params.key;
    RemovalPassesTicks(grid, pool, spacing, params);
    OrderedTicks(key, spacing);
    RemovalParts(grid, pool, spacing, params);
    PastBothTicks(grid, pool, spacing, params);
    ZeroDeltaBoundaries(pool, spacing, params);
    FailureLeavesReconciled(grid, pool, spacing, params);
    var pool' := Modify(grid, pool, spacing, params).1;
    NothingOwedAfterTouch(grid, pool, spacing, params, true);
    NothingOwedAfterTouch(grid, pool, spacing, params, false);
    assert pool' == pool.(positions := pool.positions[key := Touched(pool, spacing, params)]);
    WithdrawalSucceeds(grid, pool', spacing, params);
    NothingReturned(grid, pool'.state.price, key, true);
    NothingReturned(grid, pool'.state.price, key, false);
    PositiveHalfWord();
  }

  // --------------------------------------------------- everybody withdraws

  /** The withdrawals of the given positions, one after another. */
  ghost function Removals(m: Positions, keys: seq<PositionKey>): seq<Op>
    requires forall k :: k in keys ==> k in m && m[k].liquidity < W127
  {
    if keys == [] then [] else [ModifyOp(ModifyParams(keys[0], 0 - m[keys[0]].liquidity))] + Removals(m, keys[1..])
  }

  /** A position with liquidity that can be taken out in full. */
  ghost predicate CanLeave(grid: Grid, pool: PoolValue, k: PositionKey) {
    k in pool.positions && 0 < pool.positions[k].liquidity && PaymentsFit(grid, pool, k, pool.positions[k].liquidity)
  }

  /** No position has liquidity beyond an i128. */
  lemma LiquidityIsI128(grid: Grid, pool: PoolValue, spacing: Spacing, k: PositionKey)
    requires PoolInv(grid, spacing, pool) && k in pool.positions
    ensures pool.positions[k].liquidity < W127
  {
    hide GrossAt, NetAt, ActiveAt, MaxLiquidityPerTick, Bracket, Aligned;
    SumBounds(pool.positions, k.lower);
    CapTimesTicks(spacing);
    PositiveHalfWord();
  }

  /** A full withdrawal leaves the other positions as able to leave as they were. */
  lemma OthersCanStillLeave(grid: Grid, pool: PoolValue, spacing: Spacing, params: ModifyParams, k: PositionKey)
    requires PoolInv(grid, spacing, pool) && Modify(grid, pool, spacing, params).0.Ok?
    requires k in pool.positions && k != params.key
    ensures var pool' := Modify(grid, pool, spacing, params).1;
            && k in pool'.positions && pool'.positions[k] == pool.positions[k]
            && (CanLeave(grid, pool, k) <==> CanLeave(grid, pool', k))
  {
    hide PoolInv, Aligned, Modify, Returned, UpdateBoundaries, AccruedPart, Reconciled, Capped, KeysOk, FloorShare;
    var pool' := Modify(grid, pool, spacing, params).1;
    ModifyAnatomy(grid, pool, spacing, params);
    ModifyKeepsInv(grid, pool, spacing, params);
    InvParts(grid, pool, spacing);
    InvParts(grid, pool', spacing);
    OthersUnchanged(pool, pool', spacing, params, k, true);
    OthersUnchanged(pool, pool', spacing, params, k, false);
  }

  ghost predicate Distinct(keys: seq<PositionKey>) {
    forall i, j :: 0 <= i < j < |keys| ==> keys[i] != keys[j]
  }

  /** The tokens held cover the protocol's fees. */
  lemma VaultCoversProtocol(grid: Grid, spacing: Spacing, w: World, token0: bool)
    requires WorldInv(grid, spacing, w)
    ensures LedgerOf(w, token0).protocolFees <= LedgerOf(w, token0).vault
  {
    hide PoolInv, PoolWorth, PoolAccruals, TotalOwed;
    WorthAndOwedNonNegative(grid, spacing, w.pool, token0);
    OwedWithinAccrued(w.pool, token0);
    var l := LedgerOf(w, token0);
    PositiveWord();
    MulCancelLe(TotalOwed(w.pool, token0), l.lpFees - l.feesPaid, W128);
  }

  /** One position leaves. */
  lemma OneLeaves(grid: Grid, spacing: Spacing, w: World, k: PositionKey)
    requires WorldInv(grid, spacing, w) && CanLeave(grid, w.pool, k)
    ensures w.pool.positions[k].liquidity < W127
    ensures var params := ModifyParams(k, 0 - w.pool.positions[k].liquidity);
            var next := Apply(grid, spacing, w, ModifyOp(params));
            && next.Some? && WorldInv(grid, spacing, next.value)
            && Modify(grid, w.pool, spacing, params) == (Modify(grid, w.pool, spacing, params).0, next.value.pool)
            && Modify(grid, w.pool, spacing, params).0.Ok?
            && k in next.value.pool.positions && next.value.pool.positions[k].liquidity == 0
            && next.value.ledger0.protocolFees == w.ledger0.protocolFees
            && next.value.ledger1.protocolFees == w.ledger1.protocolFees
  {
    hide PoolInv, Modify, Returned, Owed, Solvent;
    LiquidityIsI128(grid, w.pool, spacing, k);
    var params := ModifyParams(k, 0 - w.pool.positions[k].liquidity);
    WithdrawalSucceeds(grid, w.pool, spacing, params);
    ApplyKeepsInv(grid, spacing, w, ModifyOp(params));
    ModifyKeepsInv(grid, w.pool, spacing, params);
  }

  lemma {:induction false} RemovalsAgree(m: Positions, m': Positions, keys: seq<PositionKey>)
    requires forall k :: k in keys ==> k in m && m[k].liquidity < W127
    requires forall k :: k in keys ==> k in m' && m'[k] == m[k]
    ensures Removals(m, keys) == Removals(m', keys)
  {
    if keys != [] {
      RemovalsAgree(m, m', keys[1..]);
    }
  }

  /** Positions not among the keys are untouched, those among them are empty. */
  ghost predicate Left(m: Positions, m': Positions, keys: seq<PositionKey>) {
    forall k :: k in m ==> k in m' && if k in keys then m'[k].liquidity == 0 else m'[k] == m[k]
  }

  /** The given positions are gone, the others are as they were, and what is held covers the protocol's fees. */
  ghost predicate AllLeft(grid: Grid, spacing: Spacing, w: World, keys: seq<PositionKey>, end: Option<World>) {
    && end.Some? && WorldInv(grid, spacing, end.value)
    && Left(w.pool.positions, end.value.pool.positions, keys)
    && end.value.ledger0.protocolFees == w.ledger0.protocolFees <= end.value.ledger0.vault
    && end.value.ledger1.protocolFees == w.ledger1.protocolFees <= end.value.ledger1.vault
  }

  /**
    In a solvent world any positions that can leave can leave one after
    another, in any order, and the tokens held never fall below the protocol's
    fees.
  */
  lemma {:induction false} AllCanLeave(grid: Grid, spacing: Spacing, w: World, keys: seq<PositionKey>)
    requires WorldInv(grid, spacing, w) && Distinct(keys)
    requires forall k :: k in keys ==> CanLeave(grid, w.pool, k)
    ensures forall k :: k in keys ==> k in w.pool.positions && w.pool.positions[k].liquidity < W127
    ensures AllLeft(grid, spacing, w, keys, RunHistory(grid, spacing, w, Removals(w.pool.positions, keys)))
    decreases |keys|
  {
    hide WorldInv, Apply, CanLeave, Modify, Left, Distinct, AllLeft, PoolInv;
    WidthsOfKeys(grid, spacing, w, keys);
    if keys == [] {
      NobodyLeft(grid, spacing, w);
    } else {
      var (k, rest, m) := (keys[0], keys[1..], w.pool.positions);
      OneLeaves(grid, spacing, w, k);
      var w1 := Apply(grid, spacing, w, ModifyOp(ModifyParams(k, 0 - m[k].liquidity))).value;
      OthersStay(grid, spacing, w, w1, k);
      RestIsDistinct(keys);
      AllCanLeave(grid, spacing, w1, rest);
      RemovalsAgree(m, w1.pool.positions, rest);
      OneMoreLeft(grid, spacing, w, w1, keys, RunHistory(grid, spacing, w1, Removals(m, rest)));
    }
  }

  lemma RestIsDistinct(keys: seq<PositionKey>)
    requires keys != [] && Distinct(keys)
    ensures Distinct(keys[1..])
    ensures forall x :: x in keys[1..] ==> x in keys && x != keys[0]
  {
  }

  lemma NobodyLeft(grid: Grid, spacing: Spacing, w: World)
    requires WorldInv(grid, spacing, w)
    ensures AllLeft(grid, spacing, w, [], Some(w))
  {
    hide WorldInv;
    VaultCoversProtocol(grid, spacing, w, true);
    VaultCoversProtocol(grid, spacing, w, false);
  }

  lemma WidthsOfKeys(grid: Grid, spacing: Spacing, w: World, keys: seq<PositionKey>)
    requires WorldInv(grid, spacing, w)
    requires forall k :: k in keys ==> CanLeave(grid, w.pool, k)
    ensures forall k :: k in keys ==> k in w.pool.positions && w.pool.positions[k].liquidity < W127
  {
    hide PoolInv, Solvent, PaymentsFit;
    forall k | k in keys
      ensures k in w.pool.positions && w.pool.positions[k].liquidity < W127
    {
      assert CanLeave(grid, w.pool, k);
      LiquidityIsI128(grid, w.pool, spacing, k);
    }
  }

  lemma OthersStay(grid: Grid, spacing: Spacing, w: World, w1: World, k: PositionKey)
    requires WorldInv(grid, spacing, w) && CanLeave(grid, w.pool, k)
    requires k in w.pool.positions && w.pool.positions[k].liquidity < W127
    requires var params := ModifyParams(k, 0 - w.pool.positions[k].liquidity);
             Modify(grid, w.pool, spacing, params).0.Ok? && w1.pool == Modify(grid, w.pool, spacing, params).1
    ensures forall x :: x in w.pool.positions && x != k ==>
              x in w1.pool.positions && w1.pool.positions[x] == w.pool.positions[x]
              && (CanLeave(grid, w.pool, x) <==> CanLeave(grid, w1.pool, x))
  {
    hide PoolInv, Solvent, Modify, CanLeave;
    var params := ModifyParams(k, 0 - w.pool.positions[k].liquidity);
    forall x | x in w.pool.positions && x != k
      ensures x in w1.pool.positions && w1.pool.positions[x] == w.pool.positions[x]
      ensures CanLeave(grid, w.pool, x) <==> CanLeave(grid, w1.pool, x)
    {
      OthersCanStillLeave(grid, w.pool, spacing, params, x);
    }
  }

  lemma OneMoreLeft(grid: Grid, spacing: Spacing, w: World, w1: World, keys: seq<PositionKey>, end: Option<World>)
    requires keys != [] && Distinct(keys)
    requires keys[0] in w1.pool.positions && w1.pool.positions[keys[0]].liquidity == 0
    requires forall x :: x in w.pool.positions && x != keys[0] ==>
               x in w1.pool.positions && w1.pool.positions[x] == w.pool.positions[x]
    requires w1.ledger0.protocolFees == w.ledger0.protocolFees && w1.ledger1.protocolFees == w.ledger1.protocolFees
    requires AllLeft(grid, spacing, w1, keys[1..], end)
    ensures AllLeft(grid, spacing, w, keys, end)
  {
    hide WorldInv;
    assert keys[0] !in keys[1..];
  }

  /** After any history of a pool, starting empty, every position whose payments fit can be taken out, all together. */
  lemma EveryoneCanLeave(grid: Grid, spacing: Spacing, w: World, ops: seq<Op>, keys: seq<PositionKey>)
    requires IsEmptyWorld(grid, w) && RunHistory(grid, spacing, w, ops).Some? && Distinct(keys)
    requires forall k :: k in keys ==> CanLeave(grid, RunHistory(grid, spacing, w, ops).value.pool, k)
    ensures var w' := RunHistory(grid, spacing, w, ops).value;
            && WorldInv(grid, spacing, w')
            && (forall k :: k in keys ==> k in w'.pool.positions && w'.pool.positions[k].liquidity < W127)
            && AllLeft(grid, spacing, w', keys, RunHistory(grid, spacing, w', Removals(w'.pool.positions, keys)))
  {
    hide RunHistory, IsEmptyWorld, WorldInv, CanLeave, AllLeft;
    EmptyWorldInv(grid, spacing, w);
    HistoryKeepsInv(grid, spacing, w, ops);
    AllCanLeave(grid, spacing, RunHistory(grid, spacing, w, ops).value, keys);
  }

  /** After any history, one withdrawal or collection succeeds exactly when its payments fit. */
  lemma WithdrawalAfterHistory(grid: Grid, spacing: Spacing, w: World, ops: seq<Op>, params: ModifyParams)
    requires IsEmptyWorld(grid, w) && RunHistory(grid, spacing, w, ops).Some?
    requires IsRemoval(RunHistory(grid, spacing, w, ops).value.pool, params)
    ensures var pool := RunHistory(grid, spacing, w, ops).value.pool;
            RunHistory(grid, spacing, w, ops + [ModifyOp(params)]).Some?
            <==> PaymentsFit(grid, pool, params.key, 0 - params.delta)
  {
    hide IsEmptyWorld, PaymentsFit, RunHistory, PoolInv, IsRemoval, Modify;
    EmptyWorldInv(grid, spacing, w);
    HistoryKeepsInv(grid, spacing, w, ops);
    var w' := RunHistory(grid, spacing, w, ops).value;
    WithdrawalSucceeds(grid, w'.pool, spacing, params);
    HistoryAppend(grid, spacing, w, ops, ModifyOp(params));
  }

  lemma {:induction false} HistoryAppend(grid: Grid, spacing: Spacing, w: World, ops: seq<Op>, op: Op)
    requires RunHistory(grid, spacing, w, ops).Some?
    ensures RunHistory(grid, spacing, w, ops + [op])
         == Apply(grid, spacing, RunHistory(grid, spacing, w, ops).value, op)
    decreases |ops|
  {
    hide Apply;
    if ops == [] {
      assert [op][1..] == [] && ops + [op] == [op];
    } else {
      assert (ops + [op])[1..] == ops[1..] + [op];
      HistoryAppend(grid, spacing, Apply(grid, spacing, w, ops[0]).value, ops[1..], op);
    }
  }
}
