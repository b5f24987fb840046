/**
  What `modify_liquidity` does to the exact worth of the positions and to the
  fees they have accrued.
*/
module ModifyEffects {
  import opened Arith
  import opened Words
  import opened Wrappers
  import opened SqrtPriceMath
  import opened SwapMath
  import opened PoolTypes
  import opened PoolSpec
  import opened Sums
  import opened Reconciliation
  import opened ActiveLiquidity
  import opened Solvency
  import opened FeeGrowth

  // -------------------------------------------------------------- principal

  /** The clamped price of a position, found from the tick as `from_liquidity_principal` does. */
  lemma ClampByTick(grid: Grid, k: PositionKey, tick: int, p: Price)
    requires Bracket(grid, tick, p) && k.lower < k.upper
    ensures var low, high := grid(k.lower), grid(k.upper);
            && low <= high
            && ClampPrice(p, low, high) == (if tick < k.lower then low else if tick < k.upper then p else high)
  {
    hide IsGrid;
    GridMono(grid, k.lower, k.upper);
    if tick < k.lower {
      GridMono(grid, tick + 1, k.lower);
    } else if tick < k.upper {
      GridMono(grid, k.lower, tick);
      GridMono(grid, tick + 1, k.upper);
    } else {
      GridMono(grid, k.upper, tick);
    }
  }

  /** A signed amount is the worth rounded against the caller, by less than one unit. */
  lemma SignedAgainstWorth0(a: Price, b: Price, delta: I128)
    requires a <= b && Abs(delta) < W128
    ensures var r := GetAmount0Delta(a, b, Abs(delta), delta >= 0);
            r.Ok? && (SignedAmount(r.value.0, delta >= 0).Ok? ==>
              (delta as real) * (PerLiquidity(a, true) - PerLiquidity(b, true))
              <= (0 - SignedAmount(r.value.0, delta >= 0).value) as real
              < (delta as real) * (PerLiquidity(a, true) - PerLiquidity(b, true)) + 1.0)
  {
    hide *;
    var amount: int := Amount0(a, b, Abs(delta), delta >= 0);
    GetAmount0Exact(a, b, Abs(delta), delta >= 0);
    RoundedAmounts(a, b, Abs(delta));
    RealCovers0(amount, a, b, Abs(delta));
    RealCovers0(amount - 1, a, b, Abs(delta));
    RealCovers0(amount + 1, a, b, Abs(delta));
    PerLiquidityOf(a);
    PerLiquidityOf(b);
    SignedRounding(amount, delta, PerLiquidity(a, true) - PerLiquidity(b, true));
  }

  lemma PerLiquidityOf(p: Price)
    ensures PerLiquidity(p, true) == PerLiquidity0(p) && PerLiquidity(p, false) == PerLiquidity1(p)
  {
  }

  lemma SignedRounding(amount: nat, delta: int, x: real)
    requires delta >= 0 ==> (amount - 1) as real < (Abs(delta) as real) * x <= amount as real
    requires delta < 0 ==> amount as real <= (Abs(delta) as real) * x < (amount + 1) as real
    ensures var r := SignedAmount(amount, delta >= 0);
            r.Ok? ==> (delta as real) * x <= (0 - r.value) as real < (delta as real) * x + 1.0
  {
    NegateProduct(delta, x);
  }

  lemma SignedAgainstWorth1(a: Price, b: Price, delta: I128)
    requires a <= b && Abs(delta) < W128
    ensures var r := GetAmount1Delta(a, b, Abs(delta), delta >= 0);
            SignedAmount(r.0, delta >= 0).Ok? ==>
              (delta as real) * (PerLiquidity(b, false) - PerLiquidity(a, false))
              <= (0 - SignedAmount(r.0, delta >= 0).value) as real
              < (delta as real) * (PerLiquidity(b, false) - PerLiquidity(a, false)) + 1.0
  {
    hide *;
    var amount: int := Amount1(a, b, Abs(delta), delta >= 0);
    GetAmount1Exact(a, b, Abs(delta), delta >= 0);
    RoundedAmounts(a, b, Abs(delta));
    RealCovers1(amount, a, b, Abs(delta));
    RealCovers1(amount - 1, a, b, Abs(delta));
    RealCovers1(amount + 1, a, b, Abs(delta));
    PerLiquidityOf(a);
    PerLiquidityOf(b);
    SignedRounding(amount, delta, PerLiquidity(b, false) - PerLiquidity(a, false));
  }

  lemma NegateProduct(delta: int, x: real)
    ensures delta < 0 ==> (delta as real) * x == -((Abs(delta) as real) * x)
    ensures delta >= 0 ==> Abs(delta) == delta
  {
    if delta < 0 {
      assert (delta as real) == -(Abs(delta) as real);
    }
  }

  /**
    The principal payment covers the worth of the liquidity added, or is covered
    by the worth removed, and in both cases by less than one unit of the token.
  */
  lemma PrincipalAgainstWorth(grid: Grid, k: PositionKey, tick: int, p: Price, delta: I128)
    requires Bracket(grid, tick, p) && k.lower < k.upper
    ensures var r := Principal(tick, k.lower, k.upper, p, grid(k.lower), grid(k.upper), delta);
            r.Ok? ==>
              var (worth0, worth1) := (Worth(grid, k, delta, p, true), Worth(grid, k, delta, p, false));
              && worth0 <= (0 - r.value.0) as real < worth0 + 1.0
              && worth1 <= (0 - r.value.1) as real < worth1 + 1.0
  {
    hide PerLiquidity, GetAmount0Delta, GetAmount1Delta, IsGrid, ClampPrice, Worth;
    var low, high := grid(k.lower), grid(k.upper);
    I128AbsFits(delta);
    ClampByTick(grid, k, tick, p);
    WorthDef(grid, k, delta, p, true);
    WorthDef(grid, k, delta, p, false);
    var at := ClampPrice(p, low, high);
    AtWithin(p, low, high);
    SignedAgainstWorth0(at, high, delta);
    SignedAgainstWorth1(low, at, delta);
    NoWidth(delta, PerLiquidity(high, true), PerLiquidity(low, false));
  }

  lemma AtWithin(p: Price, low: Price, high: Price)
    requires low <= high
    ensures low <= ClampPrice(p, low, high) <= high
  {
  }

  lemma NoWidth(delta: int, x: real, y: real)
    ensures (delta as real) * (x - x) == 0.0 && (delta as real) * (y - y) == 0.0
  {
  }

  /** The worth of a position is linear in its liquidity. */
  lemma WorthAdds(grid: Grid, k: PositionKey, a: int, b: int, p: Price, token0: bool)
    ensures Worth(grid, k, a + b, p, token0) == Worth(grid, k, a, p, token0) + Worth(grid, k, b, p, token0)
  {
    hide PerLiquidity, ClampPrice, IsGrid;
    var low, high := grid(k.lower), grid(k.upper);
    var unit := PerLiquidity(ClampPrice(p, low, high), token0) - PerLiquidity(if token0 then high else low, token0);
    AddFactors(a, b, unit);
  }

  lemma AddFactors(a: int, b: int, x: real)
    ensures ((a + b) as real) * x == (a as real) * x + (b as real) * x
  {
    assert (a + b) as real == a as real + b as real;
  }

  /** Resizing one position changes the total worth by the worth of the difference. */
  lemma ResizedWorth(grid: Grid, m: Positions, m': Positions, key: PositionKey, delta: int, p: Price, token0: bool)
    requires Resized(m, m', key, delta)
    ensures TotalWorth(grid, m', p, token0) == TotalWorth(grid, m, p, token0) + Worth(grid, key, delta, p, token0)
  {
    hide Worth, IsGrid;
    var f, g := WorthPart(grid, m', p, token0), WorthPart(grid, m, p, token0);
    WorthAdds(grid, key, LiquidityOf(m, key), delta, p, token0);
    if key !in m {
      WorthAdds(grid, key, 0, 0, p, token0);
    }
    SumRealChange(m.Keys, m'.Keys, f, g, key);
  }

  /** `modify_liquidity` takes in at least what the positions gain, in both tokens. */
  lemma ModifySolvent(grid: Grid, pool: PoolValue, spacing: Spacing, params: ModifyParams)
    requires PoolInv(grid, spacing, pool)
    ensures var (r, pool') := Modify(grid, pool, spacing, params);
            r.Ok? ==>
              && pool'.state.price == pool.state.price && pool'.state.tick == pool.state.tick
              && TotalWorth(grid, pool'.positions, pool.state.price, true)
                 - TotalWorth(grid, pool.positions, pool.state.price, true) <= (0 - r.value.delta0) as real
              && TotalWorth(grid, pool'.positions, pool.state.price, false)
                 - TotalWorth(grid, pool.positions, pool.state.price, false) <= (0 - r.value.delta1) as real
  {
    hide Aligned, UpdateBoundaries, Principal, FeeGrowthInside, FeesOwed, TotalWorth, IsGrid, Worth, PoolInv, Resized;
    var (r, pool') := Modify(grid, pool, spacing, params);
    if r.Ok? {
      ModifyKeepsInv(grid, pool, spacing, params);
      var key, p := params.key, pool.state.price;
      InvBracket(grid, pool, spacing);
      ResizedWorth(grid, pool.positions, pool'.positions, key, params.delta, p, true);
      ResizedWorth(grid, pool.positions, pool'.positions, key, params.delta, p, false);
      if params.delta == 0 {
        NoDeltaNoWorth(grid, key, p);
      } else {
        PrincipalAgainstWorth(grid, key, pool.state.tick, p, params.delta);
      }
    }
  }

  lemma InvBracket(grid: Grid, pool: PoolValue, spacing: Spacing)
    requires PoolInv(grid, spacing, pool)
    ensures Bracket(grid, pool.state.tick, pool.state.price)
  {
  }

  lemma NoDeltaNoWorth(grid: Grid, k: PositionKey, p: Price)
    ensures Worth(grid, k, 0, p, true) == 0.0 && Worth(grid, k, 0, p, false) == 0.0
  {
    WorthAdds(grid, k, 0, 0, p, true);
    WorthAdds(grid, k, 0, 0, p, false);
  }

  // ------------------------------------------------------------------- fees

  /** The outside growth that `modify_liquidity` reads is what the tick map stores, before and after. */
  lemma BoundaryOutside(pool: PoolValue, spacing: Spacing, params: ModifyParams, token0: bool)
    requires Reconciled(pool.ticks, pool.positions) && Capped(pool.ticks, spacing)
    requires params.key.lower < params.key.upper
    requires UpdateBoundaries(pool, spacing, params).Boundaries?
    ensures var e := UpdateBoundaries(pool, spacing, params);
            var low := if token0 then e.lower0 else e.lower1;
            var high := if token0 then e.upper0 else e.upper1;
            var (lower, upper) := (params.key.lower, params.key.upper);
            && (lower in pool.ticks ==> low == OutsideAt(pool.ticks, lower, token0))
            && (upper in pool.ticks ==> high == OutsideAt(pool.ticks, upper, token0))
            && (lower in e.ticks ==> low == OutsideAt(e.ticks, lower, token0))
            && (upper in e.ticks ==> high == OutsideAt(e.ticks, upper, token0))
            && (forall t :: t in pool.ticks && t in e.ticks ==>
                  OutsideAt(e.ticks, t, token0) == OutsideAt(pool.ticks, t, token0))
  {
    hide MaxLiquidityPerTick, UpdateTick, GrossAt, NetAt, Holds;
    if params.delta != 0 {
      var (lower, upper, delta) := (params.key.lower, params.key.upper, params.delta);
      var m, cap := pool.positions, MaxLiquidityPerTick(spacing);
      ReconciledHolds(pool, spacing, lower);
      ReconciledHolds(pool, spacing, upper);
      var low := UpdateTick(pool.ticks, pool.state, spacing, lower, delta, false);
      UpdateTickEffect(pool.ticks, pool.state, spacing, lower, delta, false, GrossAt(m, lower), NetAt(m, lower));
      HoldsElsewhere(pool.ticks, low.ticks, lower, upper, GrossAt(m, upper), NetAt(m, upper), cap);
      var high := UpdateTick(low.ticks, pool.state, spacing, upper, delta, true);
      UpdateTickEffect(low.ticks, pool.state, spacing, upper, delta, true, GrossAt(m, upper), NetAt(m, upper));
      HoldsElsewhere(low.ticks, high.ticks, upper, lower, 0, 0, cap);
      forall t | t in pool.ticks && t in high.ticks && t != lower && t != upper
        ensures OutsideAt(high.ticks, t, token0) == OutsideAt(pool.ticks, t, token0)
      {
        HoldsElsewhere(pool.ticks, low.ticks, lower, t, 0, 0, cap);
        HoldsElsewhere(low.ticks, high.ticks, upper, t, 0, 0, cap);
      }
    }
  }

  /**
    A tick that was not stored starts with all growth so far below it if the
    current tick has reached it, and with none otherwise.
  */
  lemma FreshTickOutside(pool: PoolValue, spacing: Spacing, params: ModifyParams, t: int)
    requires UpdateBoundaries(pool, spacing, params).Boundaries? && params.key.lower < params.key.upper
    requires t !in pool.ticks && t in UpdateBoundaries(pool, spacing, params).ticks
    ensures var (added, state) := (UpdateBoundaries(pool, spacing, params).ticks[t], pool.state);
            && (t == params.key.lower || t == params.key.upper)
            && added.outside0 == (if t <= state.tick then state.growth0 else 0)
            && added.outside1 == (if t <= state.tick then state.growth1 else 0)
  {
    hide MaxLiquidityPerTick;
  }

  /** The growth inside the touched range, as `modify_liquidity` computes it. */
  function TouchedInside(pool: PoolValue, spacing: Spacing, params: ModifyParams, token0: bool): U256 {
    var e := UpdateBoundaries(pool, spacing, params);
    var state, k := pool.state, params.key;
    if e.BoundariesRefused? then 0
    else FeeGrowthInside(state.tick, Growth(state, token0), k.lower, k.upper,
                         if token0 then e.lower0 else e.lower1, if token0 then e.upper0 else e.upper1)
  }

  /** What a successful `modify_liquidity` does to the positions and to the fees it pays. */
  lemma ModifyAnatomy(grid: Grid, pool: PoolValue, spacing: Spacing, params: ModifyParams)
    ensures var (r, pool') := Modify(grid, pool, spacing, params);
            var (before, after) := (PositionAt(pool.positions, params.key), PositionAt(pool'.positions, params.key));
            r.Ok? ==>
              && params.key.lower < params.key.upper
              && UpdateBoundaries(pool, spacing, params).Boundaries?
              && pool'.ticks == UpdateBoundaries(pool, spacing, params).ticks
              && pool'.state == pool.state.(liquidity := pool'.state.liquidity)
              && pool'.positions == pool.positions[params.key := after]
              && after.last0 == TouchedInside(pool, spacing, params, true)
              && after.last1 == TouchedInside(pool, spacing, params, false)
              && FeesOwed(before, TouchedInside(pool, spacing, params, true), true) == Ok(r.value.fee0)
              && FeesOwed(before, TouchedInside(pool, spacing, params, false), false) == Ok(r.value.fee1)
              && r.value.fee0 >= 0 && r.value.fee1 >= 0
  {
    hide UpdateBoundaries, FeeGrowthInside, FeesOwed, Principal, Aligned;
  }

  lemma FeesOwedBound(position: Position, inside: U256, token0: bool)
    requires FeesOwed(position, inside, token0).Ok?
    ensures W128 * FeesOwed(position, inside, token0).value
         <= position.liquidity * WrappingSub(inside, Last(position, token0))
  {
    hide Div;
    if position.liquidity > 0 {
      var x := WrappingSub(inside, Last(position, token0));
      MulNonNegative(x, position.liquidity);
      PositiveWord();
      FloorBounds(x * position.liquidity, W128);
    }
  }

  lemma PositiveWord()
    ensures W128 > 0
  {
  }

  /** `mul_div` of an accrual with the liquidity over 2^128 always fits, so the fee computation cannot fail. */
  lemma FeesAlwaysFit(position: Position, inside: U256, token0: bool)
    ensures FeesOwed(position, inside, token0).Ok?
  {
    hide Div;
    var x := WrappingSub(inside, Last(position, token0));
    MulNonNegative(x, position.liquidity);
    PositiveWord();
    AccrualBelow(x, position.liquidity);
    FloorAtLeast(x * position.liquidity, W128, W256);
  }

  lemma AccrualBelow(x: U256, liquidity: U128)
    ensures x * liquidity < W256 * W128
  {
    MulStrict2(x, W256, liquidity, W128);
  }

  /** The other positions accrue exactly as before. */
  lemma OthersUnchanged(pool: PoolValue, pool': PoolValue, spacing: Spacing, params: ModifyParams, k: PositionKey,
                        token0: bool)
    requires Reconciled(pool.ticks, pool.positions) && Capped(pool.ticks, spacing) && KeysOk(pool.positions, spacing)
    requires params.key.lower < params.key.upper
    requires UpdateBoundaries(pool, spacing, params).Boundaries?
    requires pool'.ticks == UpdateBoundaries(pool, spacing, params).ticks
    requires Reconciled(pool'.ticks, pool'.positions)
    requires k in pool.positions && k in pool'.positions && pool'.positions[k] == pool.positions[k]
    requires pool'.state == pool.state.(liquidity := pool'.state.liquidity)
    ensures AccruedPart(pool'.state.tick, Growth(pool'.state, token0), pool'.ticks, pool'.positions, token0)(k)
         == AccruedPart(pool.state.tick, Growth(pool.state, token0), pool.ticks, pool.positions, token0)(k)
  {
    hide *;
    BoundaryOutside(pool, spacing, params, token0);
    AccruedDef(pool, k, token0);
    AccruedDef(pool', k, token0);
    if pool.positions[k].liquidity > 0 {
      EndsAreStored(pool.ticks, pool.positions, k);
      EndsAreStored(pool'.ticks, pool'.positions, k);
      SameGrowth(pool.state, pool'.state, token0);
      SameOutsideSameInside(pool.state.tick, Growth(pool.state, token0), pool.ticks, pool'.ticks, k, token0);
    } else {
      ZeroTimes(PoolAccrued(pool, k, token0), PoolAccrued(pool', k, token0), 0);
    }
  }

  /** Growth inside a position's range since its checkpoint, in a pool. */
  function PoolAccrued(pool: PoolValue, k: PositionKey, token0: bool): U256 {
    Accrued(pool.state.tick, Growth(pool.state, token0), pool.ticks, pool.positions, k, token0)
  }

  lemma AccruedDef(pool: PoolValue, k: PositionKey, token0: bool)
    requires k in pool.positions
    ensures AccruedPart(pool.state.tick, Growth(pool.state, token0), pool.ticks, pool.positions, token0)(k)
         == pool.positions[k].liquidity * PoolAccrued(pool, k, token0)
    ensures PoolAccrued(pool, k, token0)
         == WrappingSub(Inside(pool.state.tick, Growth(pool.state, token0), pool.ticks, k, token0),
                        Last(pool.positions[k], token0))
  {
    hide Inside, WrappingSub;
  }

  lemma SameGrowth(state: PoolState, state': PoolState, token0: bool)
    requires state' == state.(liquidity := state'.liquidity)
    ensures Growth(state', token0) == Growth(state, token0) && state'.tick == state.tick
  {
  }

  lemma SameOutsideSameInside(tick: int, global: U256, ticks: Ticks, ticks': Ticks, k: PositionKey, token0: bool)
    requires OutsideAt(ticks', k.lower, token0) == OutsideAt(ticks, k.lower, token0)
    requires OutsideAt(ticks', k.upper, token0) == OutsideAt(ticks, k.upper, token0)
    ensures Inside(tick, global, ticks', k, token0) == Inside(tick, global, ticks, k, token0)
  {
  }

  /** The touched position: its accrual is paid out and starts again from zero. */
  lemma TouchedAccrual(grid: Grid, pool: PoolValue, spacing: Spacing, params: ModifyParams, token0: bool)
    requires PoolInv(grid, spacing, pool) && Modify(grid, pool, spacing, params).0.Ok?
    ensures var (r, pool') := Modify(grid, pool, spacing, params);
            var fee := if token0 then r.value.fee0 else r.value.fee1;
            && AccruedPart(pool'.state.tick, Growth(pool'.state, token0), pool'.ticks, pool'.positions,
                           token0)(params.key) == 0
            && W128 * fee
               <= AccruedPart(pool.state.tick, Growth(pool.state, token0), pool.ticks, pool.positions,
                              token0)(params.key)
  {
    hide *;
    var (r, pool') := Modify(grid, pool, spacing, params);
    var k := params.key;
    InvParts(grid, pool, spacing);
    ModifyAnatomy(grid, pool, spacing, params);
    ModifyKeepsInv(grid, pool, spacing, params);
    InvParts(grid, pool', spacing);
    BoundaryOutside(pool, spacing, params, token0);
    PositionAtIs(pool.positions, k);
    PositionAtIs(pool'.positions, k);
    AccruedDef(pool', k, token0);
    SameGrowth(pool.state, pool'.state, token0);
    if pool'.positions[k].liquidity > 0 {
      EndsAreStored(pool'.ticks, pool'.positions, k);
      TouchedInsideIs(pool, spacing, params, pool'.ticks, token0);
      StartsFromZero(pool'.positions[k], TouchedInside(pool, spacing, params, token0), token0);
    } else {
      ZeroTimes(PoolAccrued(pool', k, token0), 0, 0);
    }
    if k in pool.positions {
      AccruedDef(pool, k, token0);
      FeesOwedBound(pool.positions[k], TouchedInside(pool, spacing, params, token0), token0);
      if pool.positions[k].liquidity > 0 {
        EndsAreStored(pool.ticks, pool.positions, k);
        TouchedInsideIs(pool, spacing, params, pool.ticks, token0);
      } else {
        NothingOwed(pool.positions[k], TouchedInside(pool, spacing, params, token0), token0);
        ZeroTimes(PoolAccrued(pool, k, token0), 0, W128);
      }
    } else {
      NothingOwed(EMPTY_POSITION, TouchedInside(pool, spacing, params, token0), token0);
      NewKeyAccruesNothing(pool, k, token0);
      ZeroTimes(0, 0, W128);
    }
  }

  lemma PositionAtIs(m: Positions, k: PositionKey)
    ensures PositionAt(m, k) == if k in m then m[k] else EMPTY_POSITION
  {
  }

  lemma InvParts(grid: Grid, pool: PoolValue, spacing: Spacing)
    requires PoolInv(grid, spacing, pool)
    ensures Reconciled(pool.ticks, pool.positions) && Capped(pool.ticks, spacing) && KeysOk(pool.positions, spacing)
    ensures EMPTY_POSITION.liquidity == 0
  {
  }

  /** Where both ends are stored, the growth read at the touch is the growth inside by the stored ticks. */
  lemma TouchedInsideIs(pool: PoolValue, spacing: Spacing, params: ModifyParams, ticks: Ticks, token0: bool)
    requires UpdateBoundaries(pool, spacing, params).Boundaries?
    requires var e := UpdateBoundaries(pool, spacing, params);
             && (if token0 then e.lower0 else e.lower1) == OutsideAt(ticks, params.key.lower, token0)
             && (if token0 then e.upper0 else e.upper1) == OutsideAt(ticks, params.key.upper, token0)
    ensures TouchedInside(pool, spacing, params, token0)
         == Inside(pool.state.tick, Growth(pool.state, token0), ticks, params.key, token0)
  {
    hide UpdateBoundaries, FeeGrowthInside, OutsideAt;
  }

  lemma StartsFromZero(position: Position, inside: U256, token0: bool)
    requires inside == if token0 then position.last0 else position.last1
    ensures WrappingSub(inside, Last(position, token0)) == 0 && position.liquidity * 0 == 0
  {
  }

  lemma NothingOwed(position: Position, inside: U256, token0: bool)
    requires position.liquidity == 0
    ensures FeesOwed(position, inside, token0) == Ok(0)
  {
  }

  /** What is accrued after `modify_liquidity` is at most what was accrued before less the fees paid out. */
  lemma ModifyAccrued(grid: Grid, pool: PoolValue, spacing: Spacing, params: ModifyParams, token0: bool)
    requires PoolInv(grid, spacing, pool)
    ensures var (r, pool') := Modify(grid, pool, spacing, params);
            r.Ok? ==>
              TotalAccrued(pool'.state.tick, Growth(pool'.state, token0), pool'.ticks, pool'.positions, token0)
              <= TotalAccrued(pool.state.tick, Growth(pool.state, token0), pool.ticks, pool.positions, token0)
                 - W128 * (if token0 then r.value.fee0 else r.value.fee1)
  {
    hide UpdateBoundaries, Reconciled, Capped, KeysOk, Modify, AccruedPart, FeesOwed, Bracket, Resized;
    var (r, pool') := Modify(grid, pool, spacing, params);
    if r.Ok? {
      ModifyAnatomy(grid, pool, spacing, params);
      ModifyKeepsInv(grid, pool, spacing, params);
      TouchedAccrual(grid, pool, spacing, params, token0);
      var f := AccruedPart(pool'.state.tick, Growth(pool'.state, token0), pool'.ticks, pool'.positions, token0);
      var g := AccruedPart(pool.state.tick, Growth(pool.state, token0), pool.ticks, pool.positions, token0);
      var m, m', key := pool.positions, pool'.positions, params.key;
      forall k | k in m.Keys && k != key
        ensures f(k) == g(k)
      {
        OthersUnchanged(pool, pool', spacing, params, k, token0);
      }
      NewKeyAccruesNothing(pool, key, token0);
      assert m'.Keys == m.Keys + {key};
      SumChange(m.Keys, m'.Keys, f, g, key);
    }
  }

  lemma NewKeyAccruesNothing(pool: PoolValue, k: PositionKey, token0: bool)
    ensures k !in pool.positions ==>
              AccruedPart(pool.state.tick, Growth(pool.state, token0), pool.ticks, pool.positions, token0)(k) == 0
  {
  }

  // ------------------------------------------------------------ fees owed

  function FloorShare(x: int): int {
    FloorDiv(x, Pow2W128())
  }

  function Pow2W128(): (w: nat)
    ensures w == W128 > 0
  {
    PositiveWord();
    W128
  }

  /** Fees one position would be paid now, in whole tokens: its accrual, floored. */
  ghost function Owed(pool: PoolValue, k: PositionKey, token0: bool): int {
    FloorShare(AccruedPart(pool.state.tick, Growth(pool.state, token0), pool.ticks, pool.positions, token0)(k))
  }

  /** The fees a touch computes are exactly the fees owed to the position, and they are a number of tokens. */
  lemma OwedIsCharged(grid: Grid, pool: PoolValue, spacing: Spacing, params: ModifyParams, token0: bool)
    requires PoolInv(grid, spacing, pool) && params.key.lower < params.key.upper
    requires UpdateBoundaries(pool, spacing, params).Boundaries?
    ensures Owed(pool, params.key, token0) >= 0
    ensures FeesOwed(PositionAt(pool.positions, params.key), TouchedInside(pool, spacing, params, token0), token0)
         == Ok(Owed(pool, params.key, token0))
  {
    hide *;
    var k := params.key;
    var inside := TouchedInside(pool, spacing, params, token0);
    InvParts(grid, pool, spacing);
    PositionAtIs(pool.positions, k);
    OwedDef(pool, k, token0);
    if k in pool.positions && pool.positions[k].liquidity > 0 {
      BoundaryOutside(pool, spacing, params, token0);
      EndsAreStored(pool.ticks, pool.positions, k);
      TouchedInsideIs(pool, spacing, params, pool.ticks, token0);
      AccruedDef(pool, k, token0);
      FlooredFees(pool.positions[k], inside, token0);
    } else {
      NothingOwed(PositionAt(pool.positions, k), inside, token0);
      if k in pool.positions {
        AccruedDef(pool, k, token0);
        ZeroTimes(PoolAccrued(pool, k, token0), 0, 0);
      } else {
        NewKeyAccruesNothing(pool, k, token0);
      }
      NothingShared();
    }
  }

  lemma OwedDef(pool: PoolValue, k: PositionKey, token0: bool)
    ensures Owed(pool, k, token0)
         == FloorShare(AccruedPart(pool.state.tick, Growth(pool.state, token0), pool.ticks, pool.positions, token0)(k))
  {
    hide AccruedPart, FloorShare;
  }

  lemma NothingShared()
    ensures FloorShare(0) == 0
  {
    FloorDivAtLeast(0, Pow2W128(), 0);
    FloorDivAtLeast(0, Pow2W128(), 1);
  }

  lemma FlooredFees(position: Position, inside: U256, token0: bool)
    requires position.liquidity > 0
    ensures var x := position.liquidity * WrappingSub(inside, Last(position, token0));
            FeesOwed(position, inside, token0) == Ok(FloorShare(x)) && FloorShare(x) >= 0
  {
    hide Div, WrappingSub;
    var x := WrappingSub(inside, Last(position, token0));
    MulNonNegative(x, position.liquidity);
    FeesAlwaysFit(position, inside, token0);
    assert x * position.liquidity == position.liquidity * x;
    FloorBounds(x * position.liquidity, Pow2W128());
    FloorDivAtLeast(x * position.liquidity, Pow2W128(), Div(x * position.liquidity, W128));
    FloorDivAtLeast(x * position.liquidity, Pow2W128(), Div(x * position.liquidity, W128) + 1);
  }
}
