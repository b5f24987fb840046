/**
  Liquidity changes that fail.  `modify_liquidity` does not roll back what it
  has written by then; this says exactly after which failures the pool still is
  a reconciled one.
*/
module FailedChanges {
  import opened Words
  import opened Wrappers
  import opened PoolTypes
  import opened PoolSpec
  import opened Reconciliation
  import opened ActiveLiquidity
  import opened ModifyEffects

  /** Both tokens' owed fees can be paid out as a signed 128-bit amount. */
  ghost predicate FeesFit(pool: PoolValue, key: PositionKey) {
    Owed(pool, key, true) < W127 && Owed(pool, key, false) < W127
  }

  /**
    The failures that leave a reconciled pool, by what a caller can read off
    before the call: nothing was written yet; the liquidity stays the same; the
    lower tick is refused but was stored; or ticks and position are both
    changed, and the active liquidity is as well unless it has no part in it.
  */
  ghost predicate LeavesReconciled(pool: PoolValue, spacing: Spacing, params: ModifyParams) {
    var (key, delta) := (params.key, params.delta);
    || CheckTicks(key.lower, key.upper, spacing).Some?
    || delta == 0
    || (var low := UpdateTick(pool.ticks, pool.state, spacing, key.lower, delta, false);
        if low.TickRefused? then key.lower in pool.ticks
        else
          && UpdateTick(low.ticks, pool.state, spacing, key.upper, delta, true).TickUpdated?
          && 0 <= LiquidityOf(pool.positions, key) + delta < W128
          && (IsActive(pool.state.tick, key) ==> FeesFit(pool, key)))
  }

  /** Where a liquidity change ends, past both ticks. */
  datatype Stage = Resizing | Paying | Committing

  ghost function StageOf(pool: PoolValue, params: ModifyParams): Stage {
    var liquidity := LiquidityOf(pool.positions, params.key);
    if !(0 <= liquidity + params.delta < W128) || (params.delta == 0 && liquidity == 0) then Resizing
    else if !FeesFit(pool, params.key) then Paying
    else Committing
  }

  /** The position as a touch stores it. */
  ghost function Touched(pool: PoolValue, spacing: Spacing, params: ModifyParams): Position
    requires 0 <= LiquidityOf(pool.positions, params.key) + params.delta < W128
  {
    Position(LiquidityOf(pool.positions, params.key) + params.delta, TouchedInside(pool, spacing, params, true),
             TouchedInside(pool, spacing, params, false))
  }

  /** Past both ticks: the entry is left as it was, or stored and the fees refused, or the principal comes next. */
  lemma PastBothTicks(grid: Grid, pool: PoolValue, spacing: Spacing, params: ModifyParams)
    requires PoolInv(grid, spacing, pool) && CheckTicks(params.key.lower, params.key.upper, spacing).None?
    requires UpdateBoundaries(pool, spacing, params).Boundaries?
    ensures var ticks := UpdateBoundaries(pool, spacing, params).ticks;
            var m := pool.positions;
            match StageOf(pool, params)
            case Resizing =>
              Modify(grid, pool, spacing, params)
              == (Err(if params.delta == 0 then PositionNotFound else LiquidityOverflow),
                  pool.(ticks := ticks, positions := m[params.key := PositionAt(m, params.key)]))
            case Paying =>
              Modify(grid, pool, spacing, params)
              == (Err(AmountOverflow),
                  pool.(ticks := ticks, positions := m[params.key := Touched(pool, spacing, params)]))
            case Committing =>
              Owed(pool, params.key, true) >= 0 && Owed(pool, params.key, false) >= 0 &&
              Modify(grid, pool, spacing, params)
              == CommitLiquidity(grid, PoolValue(pool.state, ticks, m[params.key := Touched(pool, spacing, params)]),
                                 params, Owed(pool, params.key, true), Owed(pool, params.key, false))
  {
    hide UpdateBoundaries, PoolInv, Aligned, Owed, FeesOwed, CommitLiquidity, FeeGrowthInside;
    OwedIsCharged(grid, pool, spacing, params, true);
    OwedIsCharged(grid, pool, spacing, params, false);
    TouchedInsides(pool, spacing, params);
    InvParts(grid, pool, spacing);
  }

  lemma TouchedInsides(pool: PoolValue, spacing: Spacing, params: ModifyParams)
    requires UpdateBoundaries(pool, spacing, params).Boundaries?
    ensures var e := UpdateBoundaries(pool, spacing, params);
            var (state, k) := (pool.state, params.key);
            && TouchedInside(pool, spacing, params, true)
               == FeeGrowthInside(state.tick, state.growth0, k.lower, k.upper, e.lower0, e.upper0)
            && TouchedInside(pool, spacing, params, false)
               == FeeGrowthInside(state.tick, state.growth1, k.lower, k.upper, e.lower1, e.upper1)
  {
    hide UpdateBoundaries, FeeGrowthInside;
  }

  /** Once the lower tick has moved by a non-zero delta, ticks no longer fit positions that have not. */
  lemma LowerTickMoved(pool: PoolValue, spacing: Spacing, params: ModifyParams, ticks: Ticks, m: Positions)
    requires Reconciled(pool.ticks, pool.positions) && Capped(pool.ticks, spacing)
    requires params.delta != 0 && params.key.lower < params.key.upper
    requires var low := UpdateTick(pool.ticks, pool.state, spacing, params.key.lower, params.delta, false);
             low.TickUpdated? && ticks - {params.key.upper} == low.ticks - {params.key.upper}
    requires forall t :: GrossAt(m, t) == GrossAt(pool.positions, t)
    ensures !Reconciled(ticks, m)
  {
    hide GrossAt, NetAt, MaxLiquidityPerTick, UpdateTick;
    var (t, delta) := (params.key.lower, params.delta);
    var (gross, net) := (GrossAt(pool.positions, t), NetAt(pool.positions, t));
    ReconciledHolds(pool, spacing, t);
    UpdateTickEffect(pool.ticks, pool.state, spacing, t, delta, false, gross, net);
    var low := UpdateTick(pool.ticks, pool.state, spacing, t, delta, false);
    HoldsElsewhere(low.ticks, ticks, params.key.upper, t, gross + delta, net + delta, MaxLiquidityPerTick(spacing));
    assert GrossAt(m, t) == gross;
  }

  /** The upper tick's update, refused or not, writes to no other tick. */
  lemma UpperTickOnly(ticks: Ticks, state: PoolState, spacing: Spacing, t: int, delta: int)
    ensures UpdateTick(ticks, state, spacing, t, delta, true).ticks - {t} == ticks - {t}
  {
    hide MaxLiquidityPerTick;
  }

  lemma SamePositionSums(m: Positions, key: PositionKey)
    requires key.lower < key.upper
    ensures Resized(m, m[key := PositionAt(m, key)], key, 0)
    ensures forall t :: GrossAt(m[key := PositionAt(m, key)], t) == GrossAt(m, t)
  {
    hide GrossAt, NetAt;
    forall t
      ensures GrossAt(m[key := PositionAt(m, key)], t) == GrossAt(m, t)
    {
      ResizedSums(m, m[key := PositionAt(m, key)], key, 0, t);
    }
  }

  /** Ticks and position changed together: only the active liquidity decides. */
  lemma ResizedReconciles(grid: Grid, pool: PoolValue, spacing: Spacing, params: ModifyParams, pool': PoolValue)
    requires PoolInv(grid, spacing, pool) && CheckTicks(params.key.lower, params.key.upper, spacing).None?
    requires UpdateBoundaries(pool, spacing, params).Boundaries?
    requires pool'.ticks == UpdateBoundaries(pool, spacing, params).ticks
    requires Resized(pool.positions, pool'.positions, params.key, params.delta)
    requires pool'.state.tick == pool.state.tick && pool'.state.price == pool.state.price
    ensures var active := ActiveAt(pool'.positions, pool.state.tick);
            && active == pool.state.liquidity + (if IsActive(pool.state.tick, params.key) then params.delta else 0)
            && 0 <= active < W128
            && (PoolInv(grid, spacing, pool') <==> pool'.state.liquidity == active)
  {
    hide Aligned, UpdateBoundaries, GrossAt, NetAt, ActiveAt, Capped, Reconciled, Holds, MaxLiquidityPerTick, Bracket;
    var m, m' := pool.positions, pool'.positions;
    ResizedSums(m, m', params.key, params.delta, pool.state.tick);
    if params.delta == 0 {
      ZeroDeltaBoundaries(pool, spacing, params);
      NoResize(pool, m', params.key, spacing);
    } else {
      forall t
        ensures Holds(pool'.ticks, t, GrossAt(m', t), NetAt(m', t), MaxLiquidityPerTick(spacing))
      {
        BoundariesEffect(pool, spacing, params, m', t);
      }
      AllHold(pool'.ticks, m', spacing);
    }
    ActiveFits(pool'.ticks, m', spacing, pool.state.tick);
  }

  /** The three stages past both ticks. */
  lemma PastBothTicksReconciles(grid: Grid, pool: PoolValue, spacing: Spacing, params: ModifyParams)
    requires PoolInv(grid, spacing, pool) && CheckTicks(params.key.lower, params.key.upper, spacing).None?
    requires UpdateBoundaries(pool, spacing, params).Boundaries?
    ensures var (r, pool') := Modify(grid, pool, spacing, params);
            match StageOf(pool, params)
            case Resizing => PoolInv(grid, spacing, pool') <==> params.delta == 0
            case Paying =>
              PoolInv(grid, spacing, pool') <==> params.delta == 0 || !IsActive(pool.state.tick, params.key)
            case Committing => PoolInv(grid, spacing, pool')
  {
    hide UpdateBoundaries, PoolInv, Aligned, Owed, FeesOwed, Modify, Principal, TouchedInside, GrossAt, ActiveAt,
         UpdateTick;
    var (r, pool') := Modify(grid, pool, spacing, params);
    var (m, key) := (pool.positions, params.key);
    PastBothTicks(grid, pool, spacing, params);
    InvLiquidity(grid, pool, spacing);
    match StageOf(pool, params)
    case Resizing =>
      SamePositionSums(m, key);
      if params.delta == 0 {
        ResizedReconciles(grid, pool, spacing, params, pool');
      } else {
        BothTicksUpdated(pool, spacing, params);
        RefusedAfterLower(grid, pool, spacing, params, pool');
      }
    case Paying =>
      ResizedReconciles(grid, pool, spacing, params, pool');
    case Committing =>
      ResizedReconciles(grid, pool, spacing, params, pool');
  }

  lemma BothTicksUpdated(pool: PoolValue, spacing: Spacing, params: ModifyParams)
    requires params.delta != 0 && UpdateBoundaries(pool, spacing, params).Boundaries?
    ensures var low := UpdateTick(pool.ticks, pool.state, spacing, params.key.lower, params.delta, false);
            && low.TickUpdated?
            && UpdateBoundaries(pool, spacing, params).ticks
               == UpdateTick(low.ticks, pool.state, spacing, params.key.upper, params.delta, true).ticks
  {
    hide UpdateTick;
  }

  lemma InvLiquidity(grid: Grid, pool: PoolValue, spacing: Spacing)
    requires PoolInv(grid, spacing, pool)
    ensures pool.state.liquidity == ActiveAt(pool.positions, pool.state.tick)
    ensures Reconciled(pool.ticks, pool.positions) && Capped(pool.ticks, spacing)
  {
    hide ActiveAt, Reconciled, Capped;
  }

  /** Refused at the upper tick or by the position, after the lower tick has moved: never reconciled. */
  lemma RefusedAfterLower(grid: Grid, pool: PoolValue, spacing: Spacing, params: ModifyParams, pool': PoolValue)
    requires PoolInv(grid, spacing, pool) && params.delta != 0 && params.key.lower < params.key.upper
    requires var low := UpdateTick(pool.ticks, pool.state, spacing, params.key.lower, params.delta, false);
             && low.TickUpdated?
             && pool'.ticks == UpdateTick(low.ticks, pool.state, spacing, params.key.upper, params.delta, true).ticks
    requires forall t :: GrossAt(pool'.positions, t) == GrossAt(pool.positions, t)
    ensures !PoolInv(grid, spacing, pool')
  {
    hide UpdateTick, GrossAt, ActiveAt;
    var low := UpdateTick(pool.ticks, pool.state, spacing, params.key.lower, params.delta, false);
    InvLiquidity(grid, pool, spacing);
    UpperTickOnly(low.ticks, pool.state, spacing, params.key.upper, params.delta);
    LowerTickMoved(pool, spacing, params, pool'.ticks, pool'.positions);
  }

  /** After a failure the pool is reconciled exactly in the listed cases. */
  lemma FailureLeavesReconciled(grid: Grid, pool: PoolValue, spacing: Spacing, params: ModifyParams)
    requires PoolInv(grid, spacing, pool) && Modify(grid, pool, spacing, params).0.Err?
    ensures PoolInv(grid, spacing, Modify(grid, pool, spacing, params).1) <==> LeavesReconciled(pool, spacing, params)
  {
    hide PoolInv, Owed, GrossAt, UpdateTick, UpdatePosition, CommitLiquidity, FeeGrowthInside;
    var key := params.key;
    if CheckTicks(key.lower, key.upper, spacing).None? {
      if params.delta == 0 {
        PastBothTicksReconciles(grid, pool, spacing, params);
      } else {
        var low := UpdateTick(pool.ticks, pool.state, spacing, key.lower, params.delta, false);
        if low.TickRefused? {
          RefusedAtLowerTick(grid, pool, spacing, params);
        } else if UpdateBoundaries(pool, spacing, params).Boundaries? {
          PastBothTicksReconciles(grid, pool, spacing, params);
        } else {
          RefusedAfterLower(grid, pool, spacing, params, Modify(grid, pool, spacing, params).1);
        }
      }
    }
  }
}
