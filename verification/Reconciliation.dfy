/**
  The invariant that ties the tick map to the positions, and its preservation
  by `modify_liquidity`.
*/
module Reconciliation {
  import opened Wrappers
  import opened PoolTypes
  import opened PoolSpec
  import opened Sums

  // ------------------------------------------------- sums over positions

  /** What a position contributes to the gross liquidity, the net liquidity, or the activity at a tick. */
  ghost function GrossPart(m: Positions, t: int): PositionKey -> int {
    (k: PositionKey) => if k.lower == t || k.upper == t then LiquidityOf(m, k) else 0
  }

  ghost function NetPart(m: Positions, t: int): PositionKey -> int {
    (k: PositionKey) => (if k.lower == t then LiquidityOf(m, k) else 0)
                        - (if k.upper == t then LiquidityOf(m, k) else 0)
  }

  ghost function ActivePart(m: Positions, t: int): PositionKey -> int {
    (k: PositionKey) => if IsActive(t, k) then LiquidityOf(m, k) else 0
  }

  ghost function GrossAt(m: Positions, t: int): int {
    Sum(m.Keys, GrossPart(m, t))
  }

  ghost function NetAt(m: Positions, t: int): int {
    Sum(m.Keys, NetPart(m, t))
  }

  ghost function ActiveAt(m: Positions, t: int): int {
    Sum(m.Keys, ActivePart(m, t))
  }

  ghost predicate KeysOk(m: Positions, spacing: Spacing) {
    forall k :: k in m ==> k.lower < k.upper && Aligned(k.lower, spacing) && Aligned(k.upper, spacing)
  }

  /** A tick is stored iff some position with liquidity ends on it, and holds the sums over those positions. */
  ghost predicate Reconciled(ticks: Ticks, m: Positions) {
    && (forall t :: t in ticks <==> GrossAt(m, t) > 0)
    && (forall t :: t in ticks ==> ticks[t].gross == GrossAt(m, t) && ticks[t].net == NetAt(m, t))
  }

  ghost predicate Capped(ticks: Ticks, spacing: Spacing) {
    forall t :: t in ticks ==> ticks[t].gross <= MaxLiquidityPerTick(spacing)
  }

  /** The invariant of a pool with positions. */
  ghost predicate PoolInv(grid: Grid, spacing: Spacing, pool: PoolValue) {
    && Bracket(grid, pool.state.tick, pool.state.price)
    && KeysOk(pool.positions, spacing)
    && Reconciled(pool.ticks, pool.positions)
    && Capped(pool.ticks, spacing)
    && pool.state.liquidity == ActiveAt(pool.positions, pool.state.tick)
  }

  // ---------------------------------------------------- changing a position

  /** One position changes its liquidity by delta. */
  ghost predicate Resized(m: Positions, m': Positions, key: PositionKey, delta: int) {
    && m'.Keys == m.Keys + {key}
    && LiquidityOf(m', key) == LiquidityOf(m, key) + delta
    && (forall k :: k in m && k != key ==> m'[k] == m[k])
  }

  lemma ResizedSums(m: Positions, m': Positions, key: PositionKey, delta: int, t: int)
    requires Resized(m, m', key, delta) && key.lower < key.upper
    ensures GrossAt(m', t) == GrossAt(m, t) + (if t == key.lower || t == key.upper then delta else 0)
    ensures NetAt(m', t) == NetAt(m, t) + (if t == key.lower then delta else 0) - (if t == key.upper then delta else 0)
    ensures ActiveAt(m', t) == ActiveAt(m, t) + (if IsActive(t, key) then delta else 0)
  {
    SumChange(m.Keys, m'.Keys, GrossPart(m', t), GrossPart(m, t), key);
    SumChange(m.Keys, m'.Keys, NetPart(m', t), NetPart(m, t), key);
    SumChange(m.Keys, m'.Keys, ActivePart(m', t), ActivePart(m, t), key);
  }

  /** Sums are non-negative, net stays within gross, and every position counts at both its ends. */
  lemma SumBounds(m: Positions, t: int)
    ensures 0 <= GrossAt(m, t) && 0 <= ActiveAt(m, t)
    ensures 0 - GrossAt(m, t) <= NetAt(m, t) <= GrossAt(m, t)
    ensures forall k :: k in m && (k.lower == t || k.upper == t) ==> m[k].liquidity <= GrossAt(m, t)
  {
    SumNonNegative(m.Keys, GrossPart(m, t));
    SumNonNegative(m.Keys, ActivePart(m, t));
    SumAtMost(m.Keys, NetPart(m, t), GrossPart(m, t));
    var negated := (k: PositionKey) => 0 - NetPart(m, t)(k);
    SumAtMost(m.Keys, negated, GrossPart(m, t));
    SumAffine(m.Keys, negated, (k: PositionKey) => 0, NetPart(m, t), -1);
    SumAffine(m.Keys, (k: PositionKey) => 0, (k: PositionKey) => 0, (k: PositionKey) => 0, -1);
    forall k | k in m && (k.lower == t || k.upper == t)
      ensures m[k].liquidity <= GrossAt(m, t)
    {
      assert GrossPart(m, t)(k) == m[k].liquidity;
    }
  }

  /** A stored tick is an end of some position with liquidity. */
  lemma TickHasPosition(m: Positions, t: int) returns (k: PositionKey)
    requires GrossAt(m, t) > 0
    ensures k in m && m[k].liquidity > 0 && (k.lower == t || k.upper == t)
  {
    if forall x :: x in m.Keys ==> GrossPart(m, t)(x) <= 0 {
      SumAtMost(m.Keys, GrossPart(m, t), (x: PositionKey) => 0);
      SumAffine(m.Keys, (x: PositionKey) => 0, (x: PositionKey) => 0, (x: PositionKey) => 0, -1);
      assert false;
    }
    k :| k in m.Keys && GrossPart(m, t)(k) > 0;
  }

  // ------------------------------------------------------- modify_liquidity

  /** Tick t is stored iff its gross is positive, with the given sums and within the cap. */
  ghost predicate Holds(ticks: Ticks, t: int, gross: int, net: int, cap: int) {
    && (t in ticks <==> gross > 0)
    && (t in ticks ==> ticks[t].gross == gross <= cap && ticks[t].net == net)
  }

  /** `update_tick` on success: exactly one tick changes, by delta, and stays within the cap. */
  lemma UpdateTickEffect(ticks: Ticks, state: PoolState, spacing: Spacing, t: int, delta: int, upper: bool,
                         gross: int, net: int)
    requires Holds(ticks, t, gross, net, MaxLiquidityPerTick(spacing)) && gross >= 0
    requires gross == 0 ==> net == 0
    ensures var r := UpdateTick(ticks, state, spacing, t, delta, upper);
            r.TickUpdated? ==>
              && 0 <= gross + delta
              && Holds(r.ticks, t, gross + delta, if upper then net - delta else net + delta,
                       MaxLiquidityPerTick(spacing))
              && r.ticks - {t} == ticks - {t}
              && (t in ticks ==> r.outside0 == ticks[t].outside0 && r.outside1 == ticks[t].outside1)
              && (t in r.ticks ==> r.outside0 == r.ticks[t].outside0 && r.outside1 == r.ticks[t].outside1)
  {
    hide MaxLiquidityPerTick;
  }

  lemma HoldsElsewhere(ticks: Ticks, ticks': Ticks, changed: int, t: int, gross: int, net: int, cap: int)
    requires ticks' - {changed} == ticks - {changed} && t != changed
    ensures Holds(ticks', t, gross, net, cap) <==> Holds(ticks, t, gross, net, cap)
    ensures (t in ticks' <==> t in ticks) && (t in ticks ==> ticks'[t] == ticks[t])
  {
    assert t in ticks <==> t in ticks - {changed};
    assert t in ticks' <==> t in ticks' - {changed};
    if t in ticks {
      assert (ticks - {changed})[t] == ticks[t] && (ticks' - {changed})[t] == ticks'[t];
    }
  }

  /** Both boundaries after a successful update. */
  lemma BoundariesEffect(pool: PoolValue, spacing: Spacing, params: ModifyParams, m': Positions, t: int)
    requires params.delta != 0 && params.key.lower < params.key.upper
    requires Reconciled(pool.ticks, pool.positions) && Capped(pool.ticks, spacing)
    requires Resized(pool.positions, m', params.key, params.delta)
    requires UpdateBoundaries(pool, spacing, params).Boundaries?
    ensures Holds(UpdateBoundaries(pool, spacing, params).ticks, t, GrossAt(m', t), NetAt(m', t),
                  MaxLiquidityPerTick(spacing))
  {
    hide MaxLiquidityPerTick, UpdateTick, GrossAt, NetAt, Resized, Holds;
    var m := pool.positions;
    var (lower, upper, delta) := (params.key.lower, params.key.upper, params.delta);
    var cap := MaxLiquidityPerTick(spacing);
    ReconciledHolds(pool, spacing, lower);
    ReconciledHolds(pool, spacing, upper);
    ReconciledHolds(pool, spacing, t);
    var low := UpdateTick(pool.ticks, pool.state, spacing, lower, delta, false);
    UpdateTickEffect(pool.ticks, pool.state, spacing, lower, delta, false, GrossAt(m, lower), NetAt(m, lower));
    HoldsElsewhere(pool.ticks, low.ticks, lower, upper, GrossAt(m, upper), NetAt(m, upper), cap);
    var high := UpdateTick(low.ticks, pool.state, spacing, upper, delta, true);
    UpdateTickEffect(low.ticks, pool.state, spacing, upper, delta, true, GrossAt(m, upper), NetAt(m, upper));
    ResizedSums(m, m', params.key, delta, t);
    if t != lower {
      HoldsElsewhere(pool.ticks, low.ticks, lower, t, GrossAt(m', t), NetAt(m', t), cap);
    }
    if t != upper {
      HoldsElsewhere(low.ticks, high.ticks, upper, t, GrossAt(m', t), NetAt(m', t), cap);
    }
  }

  lemma ReconciledHolds(pool: PoolValue, spacing: Spacing, t: int)
    requires Reconciled(pool.ticks, pool.positions) && Capped(pool.ticks, spacing)
    ensures Holds(pool.ticks, t, GrossAt(pool.positions, t), NetAt(pool.positions, t), MaxLiquidityPerTick(spacing))
    ensures GrossAt(pool.positions, t) >= 0
    ensures GrossAt(pool.positions, t) == 0 ==> NetAt(pool.positions, t) == 0
  {
    hide MaxLiquidityPerTick, GrossAt, NetAt;
    SumBounds(pool.positions, t);
  }

  lemma AllHold(ticks: Ticks, m: Positions, spacing: Spacing)
    requires forall t :: Holds(ticks, t, GrossAt(m, t), NetAt(m, t), MaxLiquidityPerTick(spacing))
    ensures Reconciled(ticks, m) && Capped(ticks, spacing)
  {
    hide MaxLiquidityPerTick, GrossAt, NetAt;
    forall t
      ensures t in ticks <==> GrossAt(m, t) > 0
      ensures t in ticks ==> ticks[t].gross == GrossAt(m, t) && ticks[t].net == NetAt(m, t)
      ensures t in ticks ==> ticks[t].gross <= MaxLiquidityPerTick(spacing)
    {
      assert Holds(ticks, t, GrossAt(m, t), NetAt(m, t), MaxLiquidityPerTick(spacing));
    }
  }

  /** `modify_liquidity` keeps the invariant. */
  lemma ModifyKeepsInv(grid: Grid, pool: PoolValue, spacing: Spacing, params: ModifyParams)
    requires PoolInv(grid, spacing, pool)
    ensures var (r, pool') := Modify(grid, pool, spacing, params);
            r.Ok? ==> PoolInv(grid, spacing, pool')
                      && Resized(pool.positions, pool'.positions, params.key, params.delta)
  {
    hide Aligned, UpdateBoundaries, Principal, FeeGrowthInside, GrossAt, NetAt, ActiveAt, Capped, Reconciled,
         FeesOwed, Holds, MaxLiquidityPerTick;
    var (r, pool') := Modify(grid, pool, spacing, params);
    if r.Ok? {
      var key := params.key;
      assert Resized(pool.positions, pool'.positions, key, params.delta);
      ResizedSums(pool.positions, pool'.positions, key, params.delta, pool.state.tick);
      if params.delta == 0 {
        NoResize(pool, pool'.positions, key, spacing);
        assert UpdateBoundaries(pool, spacing, params).ticks == pool.ticks by {
          ZeroDeltaBoundaries(pool, spacing, params);
        }
      } else {
        forall t
          ensures Holds(pool'.ticks, t, GrossAt(pool'.positions, t), NetAt(pool'.positions, t),
                        MaxLiquidityPerTick(spacing))
        {
          BoundariesEffect(pool, spacing, params, pool'.positions, t);
        }
        AllHold(pool'.ticks, pool'.positions, spacing);
      }
    }
  }

  lemma ZeroDeltaBoundaries(pool: PoolValue, spacing: Spacing, params: ModifyParams)
    requires params.delta == 0
    ensures UpdateBoundaries(pool, spacing, params).Boundaries?
    ensures UpdateBoundaries(pool, spacing, params).ticks == pool.ticks
  {
  }

  lemma NoResize(pool: PoolValue, m': Positions, key: PositionKey, spacing: Spacing)
    requires Reconciled(pool.ticks, pool.positions) && Resized(pool.positions, m', key, 0) && key.lower < key.upper
    ensures Reconciled(pool.ticks, m')
  {
    forall t
      ensures GrossAt(m', t) == GrossAt(pool.positions, t) && NetAt(m', t) == NetAt(pool.positions, t)
    {
      ResizedSums(pool.positions, m', key, 0, t);
    }
  }

  /**
    A liquidity change refused at its lower tick is not rolled back: the tick is
    inserted before it is checked. The pool stays reconciled iff that tick was
    stored already.
  */
  lemma RefusedAtLowerTick(grid: Grid, pool: PoolValue, spacing: Spacing, params: ModifyParams)
    requires PoolInv(grid, spacing, pool) && params.delta != 0
    requires CheckTicks(params.key.lower, params.key.upper, spacing) == None
    requires UpdateTick(pool.ticks, pool.state, spacing, params.key.lower, params.delta, false).TickRefused?
    ensures var (r, pool') := Modify(grid, pool, spacing, params);
            r.Err? && (PoolInv(grid, spacing, pool') <==> params.key.lower in pool.ticks)
  {
    hide Aligned, GrossAt, NetAt, ActiveAt, MaxLiquidityPerTick, Bracket, KeysOk, Capped;
    var t := params.key.lower;
    var pool' := Modify(grid, pool, spacing, params).1;
    assert pool' == pool.(ticks := if t in pool.ticks then pool.ticks else pool.ticks[t := EMPTY_TICK]);
    if t !in pool.ticks {
      assert t in pool'.ticks && GrossAt(pool.positions, t) <= 0;
    }
  }

  /** Removing liquidity at a tick that is not stored is such a refusal. */
  lemma RemovalFromMissingTick(grid: Grid, pool: PoolValue, spacing: Spacing, params: ModifyParams)
    requires PoolInv(grid, spacing, pool) && params.delta < 0 && params.key.lower !in pool.ticks
    requires CheckTicks(params.key.lower, params.key.upper, spacing) == None
    ensures var (r, pool') := Modify(grid, pool, spacing, params);
            r == Err(I128Overflow) && !PoolInv(grid, spacing, pool')
  {
    hide Aligned, PoolInv, MaxLiquidityPerTick;
    RefusedAtLowerTick(grid, pool, spacing, params);
  }
}
