/**
  When liquidity can be added, and the whole outcome of `modify_liquidity` on a
  reconciled pool: what it needs is said in sums over the positions.
*/
module Deposits {
  import opened Bits
  import opened Words
  import opened Wrappers
  import opened SqrtPriceMath
  import opened SwapMath
  import opened PoolTypes
  import opened PoolSpec
  import opened Reconciliation
  import opened Solvency
  import opened ModifyEffects
  import opened FailedChanges
  import opened Withdrawals

  /** What adding an amount of liquidity costs in one token: its worth, rounded up. */
  ghost function Cost(grid: Grid, price: Price, k: PositionKey, amount: nat, token0: bool): nat {
    var low, high := grid(k.lower), grid(k.upper);
    var at := ClampPrice(price, low, high);
    if token0 then Amount0(at, high, amount, true) else Amount1(low, at, amount, true)
  }

  /** Both ends have room for the amount under the per-tick cap. */
  ghost predicate RoomAtEnds(pool: PoolValue, spacing: Spacing, k: PositionKey, amount: int) {
    && GrossAt(pool.positions, k.lower) + amount <= MaxLiquidityPerTick(spacing)
    && GrossAt(pool.positions, k.upper) + amount <= MaxLiquidityPerTick(spacing)
  }

  predicate ValidRange(k: PositionKey, spacing: Spacing) {
    k.lower < k.upper && k.lower % spacing == 0 && k.upper % spacing == 0
  }

  // --------------------------------------------------------------- the ends

  /** `update_tick` takes an addition exactly when the sum over the positions stays within the cap. */
  lemma AdditionAtTick(ticks: Ticks, state: PoolState, spacing: Spacing, t: int, delta: I128, upper: bool, gross: int,
                       net: int)
    requires Holds(ticks, t, gross, net, MaxLiquidityPerTick(spacing)) && delta > 0
    requires 0 <= gross <= MaxLiquidityPerTick(spacing) && 0 - gross <= net <= gross
    ensures var r := UpdateTick(ticks, state, spacing, t, delta, upper);
            if gross + delta <= MaxLiquidityPerTick(spacing) then r.TickUpdated?
            else r.TickRefused? && r.error == LiquidityOverflow
  {
    hide MaxLiquidityPerTick, Pow2;
    CapTimesTicks(spacing);
    TwiceW127();
  }

  /** Gross at any tick is within the cap, and net within gross. */
  lemma SumsAtTick(pool: PoolValue, spacing: Spacing, t: int)
    requires Reconciled(pool.ticks, pool.positions) && Capped(pool.ticks, spacing)
    ensures var (gross, net) := (GrossAt(pool.positions, t), NetAt(pool.positions, t));
            && Holds(pool.ticks, t, gross, net, MaxLiquidityPerTick(spacing))
            && 0 <= gross <= MaxLiquidityPerTick(spacing) && 0 - gross <= net <= gross
  {
    hide GrossAt, NetAt, MaxLiquidityPerTick;
    SumBounds(pool.positions, t);
    ReconciledHolds(pool, spacing, t);
  }

  lemma AdditionAtEnds(grid: Grid, pool: PoolValue, spacing: Spacing, params: ModifyParams)
    requires PoolInv(grid, spacing, pool) && params.delta > 0 && params.key.lower < params.key.upper
    ensures var e := UpdateBoundaries(pool, spacing, params);
            if RoomAtEnds(pool, spacing, params.key, params.delta) then e.Boundaries?
            else e.BoundariesRefused? && e.error == LiquidityOverflow
  {
    hide GrossAt, NetAt, ActiveAt, MaxLiquidityPerTick, Bracket, UpdateTick, Capped, Reconciled, KeysOk, Holds;
    var (lower, upper, delta, m) := (params.key.lower, params.key.upper, params.delta, pool.positions);
    SumsAtTick(pool, spacing, lower);
    SumsAtTick(pool, spacing, upper);
    AdditionAtTick(pool.ticks, pool.state, spacing, lower, delta, false, GrossAt(m, lower), NetAt(m, lower));
    var low := UpdateTick(pool.ticks, pool.state, spacing, lower, delta, false);
    if low.TickUpdated? {
      ReconciledHolds(pool, spacing, lower);
      UpdateTickEffect(pool.ticks, pool.state, spacing, lower, delta, false, GrossAt(m, lower), NetAt(m, lower));
      HoldsElsewhere(pool.ticks, low.ticks, lower, upper, GrossAt(m, upper), NetAt(m, upper),
                     MaxLiquidityPerTick(spacing));
      AdditionAtTick(low.ticks, pool.state, spacing, upper, delta, true, GrossAt(m, upper), NetAt(m, upper));
    }
  }

  // -------------------------------------------------------------- the price

  /** The principal of an addition is the rounded-up worth in both tokens, refused iff one of them is too wide. */
  lemma PrincipalOfAddition(grid: Grid, k: PositionKey, tick: int, p: Price, delta: I128)
    requires Bracket(grid, tick, p) && k.lower < k.upper && delta > 0
    ensures var (amount0, amount1) := (Cost(grid, p, k, delta, true), Cost(grid, p, k, delta, false));
            Principal(tick, k.lower, k.upper, p, grid(k.lower), grid(k.upper), delta)
            == if amount0 <= W127 && amount1 <= W127 then Ok((0 - amount0, 0 - amount1)) else Err(AmountOverflow)
  {
    hide IsGrid, ClampPrice, Bracket, Amount0, Amount1, Principal;
    var low, high := grid(k.lower), grid(k.upper);
    I128AbsFits(delta);
    ClampByTick(grid, k, tick, p);
    PrincipalBetween(k, tick, p, low, high, ClampPrice(p, low, high), delta);
  }

  lemma PrincipalBetween(k: PositionKey, tick: int, p: Price, low: Price, high: Price, at: Price, delta: I128)
    requires k.lower < k.upper && 0 < delta < W128
    requires at == if tick < k.lower then low else if tick < k.upper then p else high
    ensures var (amount0, amount1) := (Amount0(at, high, delta, true), Amount1(low, at, delta, true));
            Principal(tick, k.lower, k.upper, p, low, high, delta)
            == if amount0 <= W127 && amount1 <= W127 then Ok((0 - amount0, 0 - amount1)) else Err(AmountOverflow)
  {
    hide GetAmount0Delta, GetAmount1Delta, Amount0, Amount1, Pow2, CoversAmount0, CoversAmount1, WithinAmount0,
         WithinAmount1;
    GetAmount0Exact(at, high, delta, true);
    GetAmount1Exact(low, at, delta, true);
    if tick < k.lower {
      NoAmounts(low, delta);
    } else if tick >= k.upper {
      NoAmounts(high, delta);
    }
    PositiveHalfWord();
  }

  // ------------------------------------------------------------ the deposit

  /** The position and the active liquidity have room whenever the ends have. */
  lemma AdditionFits(grid: Grid, pool: PoolValue, spacing: Spacing, params: ModifyParams)
    requires PoolInv(grid, spacing, pool) && params.delta > 0
    requires CheckTicks(params.key.lower, params.key.upper, spacing).None?
    requires UpdateBoundaries(pool, spacing, params).Boundaries?
    requires RoomAtEnds(pool, spacing, params.key, params.delta)
    ensures 0 <= LiquidityOf(pool.positions, params.key) + params.delta < W128
    ensures 0 <= pool.state.liquidity + (if IsActive(pool.state.tick, params.key) then params.delta else 0) < W128
  {
    hide UpdateBoundaries, PoolInv, Aligned, ActiveAt, GrossAt, CheckTicks, IsActive, Resized, MaxLiquidityPerTick;
    var (m, k, delta) := (pool.positions, params.key, params.delta);
    SumBounds(m, k.lower);
    CapTimesTicks(spacing);
    TwiceW127();
    GrownEntry(m, k, delta);
    var m' := m[k := Position(LiquidityOf(m, k) + delta, 0, 0)];
    ResizedReconciles(grid, pool, spacing, params,
                      PoolValue(pool.state, UpdateBoundaries(pool, spacing, params).ticks, m'));
  }

  lemma GrownEntry(m: Positions, k: PositionKey, delta: int)
    requires 0 <= LiquidityOf(m, k) + delta < W128
    ensures 0 < W256 && Resized(m, m[k := Position(LiquidityOf(m, k) + delta, 0, 0)], k, delta)
  {
  }

  /**
    Adding liquidity costs exactly the rounded-up worth and collects the owed
    fees; it fails iff an end has no room under the cap, owed fees do not fit,
    or the cost does not fit in a signed 128-bit integer.
  */
  lemma DepositSucceeds(grid: Grid, pool: PoolValue, spacing: Spacing, params: ModifyParams)
    requires PoolInv(grid, spacing, pool) && params.delta > 0 && ValidRange(params.key, spacing)
    ensures var (key, amount, price) := (params.key, params.delta, pool.state.price);
            Modify(grid, pool, spacing, params).0
            == if !RoomAtEnds(pool, spacing, key, amount) then Err(LiquidityOverflow)
               else if FeesFit(pool, key)
                       && Cost(grid, price, key, amount, true) <= W127 && Cost(grid, price, key, amount, false) <= W127
               then Ok(ModifyResult(0 - Cost(grid, price, key, amount, true), 0 - Cost(grid, price, key, amount, false),
                                    Owed(pool, key, true), Owed(pool, key, false)))
               else Err(AmountOverflow)
  {
    hide UpdateBoundaries, PoolInv, Owed, Modify, Principal, TouchedInside, ActiveAt, Cost, IsActive, Bracket,
         RoomAtEnds, FeesFit, Touched;
    var key := params.key;
    assert CheckTicks(key.lower, key.upper, spacing).None?;
    AdditionAtEnds(grid, pool, spacing, params);
    if RoomAtEnds(pool, spacing, key, params.delta) {
      PastBothTicks(grid, pool, spacing, params);
      AdditionFits(grid, pool, spacing, params);
      InvBracket(grid, pool, spacing);
      PrincipalOfAddition(grid, key, pool.state.tick, pool.state.price, params.delta);
    } else {
      RefusedAtEnds(grid, pool, spacing, params);
    }
  }

  lemma RefusedAtEnds(grid: Grid, pool: PoolValue, spacing: Spacing, params: ModifyParams)
    requires CheckTicks(params.key.lower, params.key.upper, spacing).None?
    requires UpdateBoundaries(pool, spacing, params).BoundariesRefused?
    ensures Modify(grid, pool, spacing, params).0 == Err(UpdateBoundaries(pool, spacing, params).error)
  {
    hide UpdateBoundaries, CheckTicks;
  }

  // ---------------------------------------------------------- every change

  /** Besides valid ticks: room and a cost that fits, or liquidity to take and a payment that fits. */
  ghost predicate CanChange(grid: Grid, pool: PoolValue, spacing: Spacing, params: ModifyParams) {
    var (key, price) := (params.key, pool.state.price);
    if params.delta > 0 then
      && RoomAtEnds(pool, spacing, key, params.delta) && FeesFit(pool, key)
      && Cost(grid, price, key, params.delta, true) <= W127 && Cost(grid, price, key, params.delta, false) <= W127
    else
      IsRemoval(pool, params) && PaymentsFit(grid, pool, key, 0 - params.delta)
  }

  /** Exactly when `modify_liquidity` succeeds on a reconciled pool, whatever it is asked to do. */
  lemma ChangeSucceeds(grid: Grid, pool: PoolValue, spacing: Spacing, params: ModifyParams)
    requires PoolInv(grid, spacing, pool)
    ensures Modify(grid, pool, spacing, params).0.Ok?
       <==> ValidRange(params.key, spacing) && CanChange(grid, pool, spacing, params)
    ensures !ValidRange(params.key, spacing) ==> Modify(grid, pool, spacing, params) == (Err(InvalidTick), pool)
  {
    hide PoolInv, Modify, RoomAtEnds, FeesFit, Cost, Returned, IsRemoval;
    OnlyHeldIsTaken(grid, pool, spacing, params);
    if params.delta > 0 && ValidRange(params.key, spacing) {
      DepositSucceeds(grid, pool, spacing, params);
    } else if params.delta <= 0 && IsRemoval(pool, params) {
      WithdrawalSucceeds(grid, pool, spacing, params);
      HeldRange(grid, pool, spacing, params);
    }
  }

  lemma HeldRange(grid: Grid, pool: PoolValue, spacing: Spacing, params: ModifyParams)
    requires PoolInv(grid, spacing, pool) && IsRemoval(pool, params)
    ensures ValidRange(params.key, spacing)
  {
    hide UpdateBoundaries;
    RemovalPassesTicks(grid, pool, spacing, params);
  }

  /** A change that succeeds has valid ticks, and takes no more than the position holds. */
  lemma OnlyHeldIsTaken(grid: Grid, pool: PoolValue, spacing: Spacing, params: ModifyParams)
    ensures Modify(grid, pool, spacing, params).0.Ok? ==>
              ValidRange(params.key, spacing) && (params.delta > 0 || IsRemoval(pool, params))
    ensures !ValidRange(params.key, spacing) ==> Modify(grid, pool, spacing, params) == (Err(InvalidTick), pool)
  {
    hide UpdateBoundaries, CommitLiquidity, FeesOwed, FeeGrowthInside;
  }
}
