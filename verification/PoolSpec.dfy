/**
  What each operation of src/core/concentrated/pool.rs does, as functions from
  pool values to pool values, on every path including the failing ones.
*/
module PoolSpec {
  import opened Arith
  import opened Words
  import opened Wrappers
  import opened FullMath
  import opened SqrtPriceMath
  import opened PoolTypes

  // -------------------------------------------------------- tick boundaries

  /** Result of `update_tick`: the tick map in either case, and the outside growth when it succeeds. */
  datatype TickUpdate =
    | TickUpdated(ticks: Ticks, outside0: U256, outside1: U256)
    | TickRefused(error: Error, ticks: Ticks)

  function CheckTicks(lower: int, upper: int, spacing: Spacing): Option<Error> {
    if lower >= upper then Some(InvalidTick)
    else if !Aligned(lower, spacing) || !Aligned(upper, spacing) then Some(InvalidTick)
    else None
  }

  /** `update_tick`: insert if missing, change gross and net, drop the tick when gross reaches zero. */
  function UpdateTick(ticks: Ticks, state: PoolState, spacing: Spacing, t: int, delta: int, upper: bool): TickUpdate {
    var inserted := if t in ticks then ticks else ticks[t := EMPTY_TICK];
    var before := inserted[t];
    var gross := before.gross + delta;
    var net := if upper then before.net - delta else before.net + delta;
    if !(0 <= gross < W128) then TickRefused(I128Overflow, inserted)
    else if delta > 0 && gross > MaxLiquidityPerTick(spacing) then TickRefused(LiquidityOverflow, inserted)
    else if !(0 - W127 <= net < W127) then TickRefused(I128Overflow, inserted)
    else if gross == 0 then TickUpdated(inserted - {t}, before.outside0, before.outside1)
    else
      var starts := before.gross == 0 && t <= state.tick;
      var out0 := if starts then state.growth0 else before.outside0;
      var out1 := if starts then state.growth1 else before.outside1;
      TickUpdated(inserted[t := TickInner(gross, net, out0, out1)], out0, out1)
  }

  // -------------------------------------------------------------- positions

  /** `fee_growth_inside` in one token, from the outside growth of both boundaries. */
  function FeeGrowthInside(tick: int, global: U256, lower: int, upper: int, outsideLower: U256,
                           outsideUpper: U256): U256 {
    if tick < lower then WrappingSub(outsideLower, outsideUpper)
    else if tick >= upper then WrappingSub(outsideUpper, outsideLower)
    else WrappingSub(WrappingSub(global, outsideLower), outsideUpper)
  }

  /** Fees earned since the last checkpoint by the liquidity held until now. */
  function FeesOwed(position: Position, inside: U256, token0: bool): Result<nat> {
    if position.liquidity == 0 then Ok(0)
    else FloorQuotient(WrappingSub(inside, Last(position, token0)), position.liquidity, W128)
  }

  /** `PositionState::update`: the position afterwards, and the fees or the error. */
  function UpdatePosition(position: Position, delta: int, inside0: U256, inside1: U256): (Position, Result<(nat,
                          nat)>) {
    if delta == 0 && position.liquidity == 0 then (position, Err(PositionNotFound))
    else
      var liquidity := position.liquidity + delta;
      if !(0 <= liquidity < W128) then (position, Err(LiquidityOverflow))
      else
        var resized := position.(liquidity := liquidity);
        var fees0 := FeesOwed(position, inside0, true);
        if fees0.Err? then (resized, Err(fees0.error))
        else
          var fees1 := FeesOwed(position, inside1, false);
          if fees1.Err? then (resized, Err(fees1.error))
          else (Position(liquidity, inside0, inside1), Ok((fees0.value, fees1.value)))
  }

  // -------------------------------------------------------------- principal

  /** A payment: what the caller owes is negative, what the caller receives positive. */
  function SignedAmount(amount: nat, pays: bool): Result<int> {
    if pays then if amount > W127 then Err(AmountOverflow) else Ok(0 - amount)
    else if amount >= W127 then Err(AmountOverflow) else Ok(amount)
  }

  /** `from_liquidity_principal`: rounded up when liquidity is added, down when it is removed. */
  function Principal(tick: int, lower: int, upper: int, price: Price, lowerPrice: Price, upperPrice: Price,
                     delta: I128): Result<(int, int)> {
    I128AbsFits(delta);
    var adds := delta >= 0;
    var liquidity: U128 := Abs(delta);
    var from0 := if tick < lower then lowerPrice else price;
    var to1 := if tick < upper then price else upperPrice;
    var amount0 :- if tick >= upper then Ok(0)
                   else
                     var (amount, _) :- AsAmountOverflow(GetAmount0Delta(from0, upperPrice, liquidity, adds));
                     SignedAmount(amount, adds);
    var amount1 :- if tick < lower then Ok(0)
                   else SignedAmount(GetAmount1Delta(lowerPrice, to1, liquidity, adds).0, adds);
    Ok((amount0, amount1))
  }

  function AsAmountOverflow<T>(r: Result<T>): Result<T> {
    if r.Err? then Err(AmountOverflow) else r
  }

  lemma I128AbsFits(x: I128)
    ensures Abs(x) < W128
  {
    TwiceW127();
  }

  // -------------------------------------------------------- modify_liquidity

  datatype ModifyParams = ModifyParams(key: PositionKey, delta: I128)

  datatype ModifyResult = ModifyResult(delta0: int, delta1: int, fee0: int, fee1: int)

  /** The first half of `modify_liquidity`: both boundary ticks and the outside growth they carry. */
  datatype Boundaries =
    | Boundaries(ticks: Ticks, lower0: U256, lower1: U256, upper0: U256, upper1: U256)
    | BoundariesRefused(error: Error, ticks: Ticks)

  function UpdateBoundaries(pool: PoolValue, spacing: Spacing, params: ModifyParams): Boundaries {
    var (lower, upper) := (params.key.lower, params.key.upper);
    if params.delta == 0 then
      Boundaries(pool.ticks,
                 OutsideAt(pool.ticks, lower, true), OutsideAt(pool.ticks, lower, false),
                 OutsideAt(pool.ticks, upper, true), OutsideAt(pool.ticks, upper, false))
    else
      var low := UpdateTick(pool.ticks, pool.state, spacing, lower, params.delta, false);
      if low.TickRefused? then BoundariesRefused(low.error, low.ticks)
      else
        var high := UpdateTick(low.ticks, pool.state, spacing, upper, params.delta, true);
        if high.TickRefused? then BoundariesRefused(high.error, high.ticks)
        else Boundaries(high.ticks, low.outside0, low.outside1, high.outside0, high.outside1)
  }

  function IsActive(tick: int, key: PositionKey): bool {
    key.lower <= tick < key.upper
  }

  /** `modify_liquidity` with position storage: the result and the pool afterwards. */
  function Modify(grid: Grid, pool: PoolValue, spacing: Spacing, params: ModifyParams): (Result<ModifyResult>,
                  PoolValue) {
    var key := params.key;
    var invalid := CheckTicks(key.lower, key.upper, spacing);
    if invalid.Some? then (Err(invalid.value), pool)
    else
      var edges := UpdateBoundaries(pool, spacing, params);
      if edges.BoundariesRefused? then (Err(edges.error), pool.(ticks := edges.ticks))
      else
        var state := pool.state;
        var inside0 := FeeGrowthInside(state.tick, state.growth0, key.lower, key.upper, edges.lower0, edges.upper0);
        var inside1 := FeeGrowthInside(state.tick, state.growth1, key.lower, key.upper, edges.lower1, edges.upper1);
        var before := PositionAt(pool.positions, key);
        var (after, earned) := UpdatePosition(before, params.delta, inside0, inside1);
        var stored := PoolValue(state, edges.ticks, pool.positions[key := after]);
        if earned.Err? then (Err(earned.error), stored)
        else if earned.value.0 >= W127 || earned.value.1 >= W127 then (Err(AmountOverflow), stored)
        else CommitLiquidity(grid, stored, params, earned.value.0, earned.value.1)
  }

  /** The second half: active liquidity and the principal owed or received. */
  function CommitLiquidity(grid: Grid, stored: PoolValue, params: ModifyParams, fees0: nat, fees1: nat)
    : (Result<ModifyResult>, PoolValue)
  {
    var key, state := params.key, stored.state;
    if params.delta == 0 then (Ok(ModifyResult(0, 0, fees0, fees1)), stored)
    else
      var liquidity := if IsActive(state.tick, key) then state.liquidity + params.delta else state.liquidity;
      if !(0 <= liquidity < W128) then (Err(LiquidityOverflow), stored)
      else
        var done := stored.(state := state.(liquidity := liquidity));
        var principal := Principal(state.tick, key.lower, key.upper, state.price, grid(key.lower), grid(key.upper),
                                   params.delta);
        match principal
        case Err(e) => (Err(e), done)
        case Ok((delta0, delta1)) => (Ok(ModifyResult(delta0, delta1, fees0, fees1)), done)
  }
}
