/**
  The pool of src/core/concentrated/pool.rs as an object over its tick store
  and position store. Every method is proved to do to the pool's value exactly
  what the specification of the operation says.
*/
module Pools {
  import opened Bits
  import opened Words
  import opened Wrappers
  import opened FullMath
  import opened SqrtPriceMath
  import opened SwapMath
  import opened Fees
  import opened PoolTypes
  import opened PoolSpec
  import opened SwapSpec
  import opened SwapCall
  import opened Reconciliation
  import opened Histories
  import opened TickSlabIndexer
  import opened TickPages
  import opened TickCodec
  import opened TickSlabs
  import opened PositionStore
  import opened PoolSnapshots
  import opened TickSnapshots

  /** What `update_tick` hands back: the boundary's price and outside growth. */
  datatype Boundary = Boundary(price: Price, outside0: U256, outside1: U256)

  /** The variables of the swap loop. */
  datatype Progress = Progress(price: Price, tick: int, liquidity: U128, remaining: I256, calculated: I256,
                               growth: U256, protocol: U256)

  /** The specification's loop state with these variables. */
  function LoopOf(p: Progress, ticks: Ticks, totals: Totals): Loop {
    Loop(p.price, p.tick, p.liquidity, p.remaining, p.calculated, p.growth, p.protocol, ticks, totals)
  }

  /** A pool and a position store are no part of a tick store. */
  lemma KeptApart(slab: TickSlab, pool: Pool, positions: PositionStore)
    ensures pool !in slab.Footprint() && positions !in slab.Footprint()
  {
  }

  class Pool {
    const grid: Grid
    const spacing: Spacing
    const ticks: TickSlab
    const positions: PositionStore
    var state: PoolState
    var swapFee: SwapFee
    ghost var tickMap: Ticks  // the stored ticks, by number

    /** The tick store holds exactly the ticks of the map, each at its own index with its own price. */
    ghost predicate Valid()
      reads this`tickMap, ticks, ticks.Footprint()
    {
      && ticks.Valid() && ticks.spacing == spacing
      && this !in ticks.Footprint() && positions !in ticks.Footprint()
      && Storable(tickMap, spacing)
      && ticks.contents == InfosOf(grid, spacing, tickMap)
    }

    ghost function Value(): PoolValue
      reads this, positions
    {
      PoolValue(state, tickMap, positions.entries)
    }

    /** Only the tick store has changed. */
    twostate predicate OnlyTicks()
      reads this, positions, ticks, ticks.Footprint()
    {
      && state == old(state) && swapFee == old(swapFee) && positions.entries == old(positions.entries)
      && forall o :: o in ticks.Footprint() ==> o in old(ticks.Footprint()) || fresh(o)
    }

    /** A new pool has no ticks and no positions. */
    constructor (grid: Grid, spacing: Spacing, state: PoolState, swapFee: SwapFee)
      ensures Valid() && Value() == PoolValue(state, map[], map[])
      ensures this.grid == grid && this.spacing == spacing && this.swapFee == swapFee
      ensures fresh(ticks.Footprint()) && fresh(positions)
    {
      hide InfosOf, Storable, TickSlab.Valid, TickSlab.Footprint;
      NoInfos(grid, spacing);
      this.grid, this.spacing, this.state, this.swapFee := grid, spacing, state, swapFee;
      positions := new PositionStore();
      ticks := new TickSlab(spacing);
      tickMap := map[];
      new;
      KeptApart(ticks, this, positions);
    }

    /** A pool over a rebuilt tick store and its own copy of the positions. */
    constructor Restore(grid: Grid, state: PoolState, swapFee: SwapFee, ticks: TickSlab, positions: PositionStore,
                        ghost tickMap: Ticks)
      requires ticks.Valid() && Storable(tickMap, ticks.spacing)
      requires ticks.contents == InfosOf(grid, ticks.spacing, tickMap)
      ensures Valid() && Value() == PoolValue(state, tickMap, positions.entries)
      ensures this.ticks == ticks && this.positions == positions
      ensures this.grid == grid && this.spacing == ticks.spacing && this.swapFee == swapFee
    {
      hide InfosOf, Storable, TickSlab.Valid, TickSlab.Footprint;
      this.grid, this.spacing, this.state, this.swapFee := grid, ticks.spacing, state, swapFee;
      this.positions, this.ticks, this.tickMap := positions, ticks, tickMap;
      new;
      KeptApart(ticks, this, positions);
    }

    // ------------------------------------------------------------- one tick

    method GetTick(t: TickIndex) returns (r: Option<TickInfo>)
      requires Valid() && Aligned(t, spacing)
      ensures Valid()
      ensures r == if t in tickMap then Some(InfoOf(grid, t, tickMap[t])) else None
    {
      hide Pow2, FromTick, InfosOf, Storable, Aligned, ticks.Valid, ticks.Footprint;
      EncodesBack(t, spacing);
      InfosAt(grid, spacing, tickMap, t);
      r := ticks.Get(FromTick(t, spacing));
    }

    method InsertTick(t: TickIndex, inner: TickInner) returns (r: Result<TickInfo>)
      requires Valid() && Aligned(t, spacing)
      modifies this`tickMap, ticks.Footprint()
      ensures Valid() && tickMap == old(tickMap)[t := inner] && r == Ok(InfoOf(grid, t, inner))
      ensures OnlyTicks()
    {
      hide Pow2, FromTick, CacheIndex, CacheCap, InfosOf, Storable, Aligned, ticks.Valid;
      EncodesBack(t, spacing);
      PageInCache(t, spacing);
      StoreTick(grid, spacing, tickMap, t, inner);
      r := ticks.Insert(FromTick(t, spacing), TickInfo(t, grid(t), inner));
      tickMap := tickMap[t := inner];
    }

    method RemoveTick(t: TickIndex)
      requires Valid() && Aligned(t, spacing)
      modifies this`tickMap, ticks.Footprint()
      ensures Valid() && tickMap == old(tickMap) - {t}
      ensures OnlyTicks()
    {
      hide Pow2, FromTick, InfosOf, Storable, Aligned, ticks.Valid;
      EncodesBack(t, spacing);
      DropTick(grid, spacing, tickMap, t);
      ticks.Remove(FromTick(t, spacing));
      tickMap := tickMap - {t};
    }

    method ChangeTick(t: TickIndex, update: TickInner -> TickInner) returns (r: Result<TickInner>)
      requires Valid() && Aligned(t, spacing) && t in tickMap
      modifies this`tickMap, ticks.Footprint()
      ensures Valid() && r == Ok(update(old(tickMap)[t])) && tickMap == old(tickMap)[t := r.value]
      ensures OnlyTicks()
    {
      hide Pow2, FromTick, InfosOf, Storable, Aligned, ticks.Valid;
      EncodesBack(t, spacing);
      InfosAt(grid, spacing, tickMap, t);
      StoreTick(grid, spacing, tickMap, t, update(tickMap[t]));
      r := ticks.UpdateInitializedTick(FromTick(t, spacing),
                                       (info: TickInfo) => (update(info.inner), Ok(update(info.inner))));
      tickMap := tickMap[t := r.value];
    }

    lemma CapOfStore()
      requires Valid()
      ensures ticks.maxLiquidity == MaxLiquidityPerTick(spacing)
    {
      hide MaxLiquidityPerTick, InfosOf, Storable;
    }

    // ----------------------------------------------------- liquidity changes

    /** The stored tick, or an empty one inserted in its place. */
    method TouchTick(t: TickIndex) returns (price: Price, before: TickInner)
      requires Valid() && Aligned(t, spacing)
      modifies this`tickMap, ticks.Footprint()
      ensures Valid()
      ensures OnlyTicks()
      ensures tickMap == (if t in old(tickMap) then old(tickMap) else old(tickMap)[t := EMPTY_TICK])
      ensures price == grid(t) && before == tickMap[t]
    {
      hide Valid, Aligned, Pow2;
      var found := GetTick(t);
      if found.Some? {
        return found.value.price, found.value.inner;
      }
      price, before := grid(t), EMPTY_TICK;
      var inserted := InsertTick(t, EMPTY_TICK);
    }

    /** The write of `update_tick`: new liquidity, and outside growth where the tick starts. */
    method SetLiquidity(t: TickIndex, gross: U128, net: I128, starts: bool) returns (changed: TickInner)
      requires Valid() && Aligned(t, spacing) && t in tickMap
      modifies this`tickMap, ticks.Footprint()
      ensures Valid() && OnlyTicks()
      ensures var before := old(tickMap)[t];
              changed == TickInner(gross, net, if starts then state.growth0 else before.outside0,
                                   if starts then state.growth1 else before.outside1)
      ensures tickMap == old(tickMap)[t := changed]
    {
      hide Valid, Aligned;
      var growth0, growth1 := state.growth0, state.growth1;
      var updated := ChangeTick(t, (inner: TickInner) =>
        TickInner(gross, net, if starts then growth0 else inner.outside0, if starts then growth1 else inner.outside1));
      changed := updated.value;
    }

    /** The last part of `update_tick`: drop the tick, or store its new liquidity. */
    method WriteTick(t: TickIndex, price: Price, before: TickInner, gross: U128, net: I128) returns (b: Boundary)
      requires Valid() && Aligned(t, spacing) && t in tickMap && before == tickMap[t]
      modifies this`tickMap, ticks.Footprint()
      ensures Valid()
      ensures OnlyTicks()
      ensures var starts := before.gross == 0 && t <= state.tick;
              if gross == 0 then tickMap == old(tickMap) - {t} && b == Boundary(price, before.outside0, before.outside1)
              else
                && b == Boundary(price, if starts then state.growth0 else before.outside0,
                                 if starts then state.growth1 else before.outside1)
                && tickMap == old(tickMap)[t := TickInner(gross, net, b.outside0, b.outside1)]
    {
      hide Valid, Aligned, Pow2;
      if gross == 0 {
        RemoveTick(t);
        return Boundary(price, before.outside0, before.outside1);
      }
      var changed := SetLiquidity(t, gross, net, before.gross == 0 && t <= state.tick);
      b := Boundary(price, changed.outside0, changed.outside1);
    }

    /** `update_tick`. */
    method UpdateTick(t: TickIndex, delta: I128, upper: bool) returns (r: Result<Boundary>)
      requires Valid() && Aligned(t, spacing)
      modifies this`tickMap, ticks.Footprint()
      ensures Valid()
      ensures OnlyTicks()
      ensures match PoolSpec.UpdateTick(old(tickMap), state, spacing, t, delta, upper)
              case TickRefused(e, m) => r == Err(e) && tickMap == m
              case TickUpdated(m, out0, out1) => r == Ok(Boundary(grid(t), out0, out1)) && tickMap == m
    {
      hide Valid, Aligned, MaxLiquidityPerTick, Pow2;
      CapOfStore();
      ghost var expected := PoolSpec.UpdateTick(tickMap, state, spacing, t, delta, upper);
      var price, before := TouchTick(t);
      var gross := before.gross + delta;
      if !(0 <= gross < W128) {
        return Err(I128Overflow);
      }
      if delta > 0 && gross > ticks.maxLiquidity {
        return Err(LiquidityOverflow);
      }
      var net := if upper then before.net - delta else before.net + delta;
      if !(0 - W127 <= net < W127) {
        return Err(I128Overflow);
      }
      var boundary := WriteTick(t, price, before, gross, net);
      assert expected == TickUpdated(tickMap, boundary.outside0, boundary.outside1);
      r := Ok(boundary);
    }

    /** Outside growth of a boundary that is only read: zero when it is missing. */
    method ReadBoundary(t: TickIndex) returns (b: Boundary)
      requires Valid() && Aligned(t, spacing)
      ensures Valid() && b == Boundary(MIN_SQRT_PRICE, OutsideAt(tickMap, t, true), OutsideAt(tickMap, t, false))
    {
      hide Valid, Aligned;
      var found := GetTick(t);
      b := if found.Some? then Boundary(MIN_SQRT_PRICE, found.value.inner.outside0, found.value.inner.outside1)
           else Boundary(MIN_SQRT_PRICE, 0, 0);
    }

    /** Both boundaries of a liquidity change. */
    method UpdateBoundaries(params: ModifyParams) returns (r: Result<(Boundary, Boundary)>)
      requires Valid() && Aligned(params.key.lower, spacing) && Aligned(params.key.upper, spacing)
      modifies this`tickMap, ticks.Footprint()
      ensures Valid()
      ensures OnlyTicks()
      ensures match PoolSpec.UpdateBoundaries(old(Value()), spacing, params)
              case BoundariesRefused(e, m) => r == Err(e) && tickMap == m
              case Boundaries(m, low0, low1, high0, high1) =>
                && tickMap == m && r.Ok?
                && r.value.0.outside0 == low0 && r.value.0.outside1 == low1
                && r.value.1.outside0 == high0 && r.value.1.outside1 == high1
                && (params.delta != 0 ==>
                      r.value.0.price == grid(params.key.lower) && r.value.1.price == grid(params.key.upper))
    {
      hide Valid, Aligned, PoolSpec.UpdateTick, OutsideAt;
      if params.delta == 0 {
        var low := ReadBoundary(params.key.lower);
        var high := ReadBoundary(params.key.upper);
        return Ok((low, high));
      }
      var low := UpdateTick(params.key.lower, params.delta, false);
      if low.Err? {
        return Err(low.error);
      }
      var high := UpdateTick(params.key.upper, params.delta, true);
      if high.Err? {
        return Err(high.error);
      }
      r := Ok((low.value, high.value));
    }

    /** `fee_growth_inside` in both tokens, from the outside growth of the boundaries. */
    function FeeGrowthInside(lower: int, upper: int, low: Boundary, high: Boundary): (r: (U256, U256))
      reads this`state
      ensures r.0 == PoolSpec.FeeGrowthInside(state.tick, state.growth0, lower, upper, low.outside0, high.outside0)
      ensures r.1 == PoolSpec.FeeGrowthInside(state.tick, state.growth1, lower, upper, low.outside1, high.outside1)
    {
      if state.tick < lower then
        (WrappingSub(low.outside0, high.outside0), WrappingSub(low.outside1, high.outside1))
      else if state.tick >= upper then
        (WrappingSub(high.outside0, low.outside0), WrappingSub(high.outside1, low.outside1))
      else
        (WrappingSub(WrappingSub(state.growth0, low.outside0), high.outside0),
         WrappingSub(WrappingSub(state.growth1, low.outside1), high.outside1))
    }

    /** `update_position`; the ticks are a different store. */
    method UpdatePositionEntry(key: PositionKey, delta: I128, inside0: U256, inside1: U256) returns (r: Result<(nat,
                               nat)>)
      requires Valid()
      modifies positions
      ensures Valid() && ticks.Footprint() == old(ticks.Footprint())
      ensures var before := PositionAt(old(positions.entries), key);
              var (after, earned) := UpdatePosition(before, delta, inside0, inside1);
              positions.entries == old(positions.entries)[key := after] && r == earned
    {
      hide UpdatePosition, ticks.Valid, InfosOf, Storable;
      r := positions.Update(key, delta, inside0, inside1);
    }

    /** The last part of a liquidity change: active liquidity and principal. */
    method CommitLiquidity(params: ModifyParams, low: Boundary, high: Boundary, fees0: nat, fees1: nat)
      returns (r: Result<ModifyResult>)
      requires Valid()
      requires params.delta != 0 ==> low.price == grid(params.key.lower) && high.price == grid(params.key.upper)
      modifies this`state
      ensures Valid() && ticks.Footprint() == old(ticks.Footprint())
      ensures (r, Value()) == PoolSpec.CommitLiquidity(grid, old(Value()), params, fees0, fees1)
    {
      hide Principal, ticks.Valid, ticks.Footprint, InfosOf, Storable, Aligned;
      var key := params.key;
      if params.delta == 0 {
        return Ok(ModifyResult(0, 0, fees0, fees1));
      }
      if key.lower <= state.tick < key.upper {
        var liquidity := state.liquidity + params.delta;
        if !(0 <= liquidity < W128) {
          return Err(LiquidityOverflow);
        }
        state := state.(liquidity := liquidity);
      }
      var principal := Principal(state.tick, key.lower, key.upper, state.price, low.price, high.price, params.delta);
      if principal.Err? {
        return Err(principal.error);
      }
      r := Ok(ModifyResult(principal.value.0, principal.value.1, fees0, fees1));
    }

    /** `modify_liquidity` with position storage. */
    method ModifyLiquidity(params: ModifyParams) returns (r: Result<ModifyResult>)
      requires Valid()
      modifies this, positions, ticks.Footprint()
      ensures Valid() && swapFee == old(swapFee)
      ensures forall o :: o in ticks.Footprint() ==> o in old(ticks.Footprint()) || fresh(o)
      ensures (r, Value()) == Modify(grid, old(Value()), spacing, params)
      ensures PoolInv(grid, spacing, old(Value())) && r.Ok? ==> PoolInv(grid, spacing, Value())
    {
      hide Valid, Aligned, PoolSpec.UpdateBoundaries, PoolSpec.FeeGrowthInside, UpdatePosition,
           PoolSpec.CommitLiquidity, FeeGrowthInside, ticks.Footprint,
           PoolInv, Resized;
      if PoolInv(grid, spacing, Value()) {
        ModifyKeepsInv(grid, Value(), spacing, params);
      }
      var key := params.key;
      if key.lower >= key.upper || !Aligned(key.lower, spacing) || !Aligned(key.upper, spacing) {
        return Err(InvalidTick);
      }
      var edges := UpdateBoundaries(params);
      if edges.Err? {
        return Err(edges.error);
      }
      var (low, high) := edges.value;
      var (inside0, inside1) := FeeGrowthInside(key.lower, key.upper, low, high);
      var earned := UpdatePositionEntry(key, params.delta, inside0, inside1);
      if earned.Err? {
        return Err(earned.error);
      }
      var (fees0, fees1) := earned.value;
      if fees0 >= W127 || fees1 >= W127 {
        return Err(AmountOverflow);
      }
      r := CommitLiquidity(params, low, high, fees0, fees1);
    }

    // ------------------------------------------------------------------ swap

    /** The next initialized tick inside the current word, or the word's boundary, with its price. */
    method FindTarget(env: Env, ghost s: Loop, tick: int) returns (t: int, price: Price, initialized: bool)
      requires Valid() && env.grid == grid && env.spacing == spacing
      requires LoopOk(env, s) && !Done(env, s) && s.ticks == tickMap && s.tick == tick
      ensures Valid()
      ensures Target(t, initialized) == NextTarget(env, s) && price == grid(t) && MIN_TICK <= t <= MAX_TICK
      ensures initialized ==> t in tickMap && Aligned(t, spacing)
    {
      hide Pow2, FromTick, InfosOf, Storable, Aligned, ticks.Valid, ticks.Footprint, NextInitialized, IsGrid,
           WordBoundary;
      BracketRange(grid, tick, s.price);
      FromTickIs(tick, spacing);
      var found := ticks.NextInitializedTick(FromTick(tick, spacing), env.zeroForOne);
      NearestTick(grid, spacing, tickMap, tick, env.zeroForOne, found);
      var boundary := WordBoundary(tick, spacing, env.zeroForOne);
      if found.Some?
         && (if env.zeroForOne then found.value.info.tick >= boundary else found.value.info.tick <= boundary) {
        return found.value.info.tick, found.value.info.price, true;
      }
      t, price, initialized := boundary, grid(boundary), false;
    }

    /** Crossing on behalf of a quote: only reads the net liquidity. */
    method CrossReadOnly(t: TickIndex) returns (r: Result<I128>)
      requires Valid() && Aligned(t, spacing)
      ensures Valid()
      ensures r == if t in tickMap then Ok(tickMap[t].net) else Err(InvalidTick)
    {
      hide Valid, Aligned;
      var found := GetTick(t);
      r := if found.Some? then Ok(found.value.inner.net) else Err(InvalidTick);
    }

    /** Crossing on behalf of a swap: flips the outside growth in place. */
    method CrossMutating(t: TickIndex, growth0: U256, growth1: U256) returns (r: Result<I128>)
      requires Valid() && Aligned(t, spacing) && t in tickMap
      modifies this`tickMap, ticks.Footprint()
      ensures Valid() && OnlyTicks()
      ensures r == Ok(old(tickMap)[t].net) && tickMap == old(tickMap)[t := Flip(old(tickMap)[t], growth0, growth1)]
    {
      hide Pow2, FromTick, InfosOf, Storable, Aligned, ticks.Valid;
      EncodesBack(t, spacing);
      InfosAt(grid, spacing, tickMap, t);
      StoreTick(grid, spacing, tickMap, t, Flip(tickMap[t], growth0, growth1));
      r := ticks.CrossTick(FromTick(t, spacing), growth0, growth1);
      tickMap := tickMap[t := Flip(tickMap[t], growth0, growth1)];
    }

    /** The two kinds of tick access of the shared loop. */
    method CrossFor(env: Env, t: TickIndex, growth: U256) returns (net: I128)
      requires Valid() && Aligned(t, spacing) && t in tickMap
      modifies if env.mutate then {this} + ticks.Footprint() else {}
      ensures Valid() && OnlyTicks()
      ensures net == old(tickMap)[t].net && tickMap == Cross(env, old(tickMap), t, growth)
    {
      hide Valid, Aligned, Flip;
      if env.mutate {
        var crossed := CrossMutating(t, Growth0(env, growth), Growth1(env, growth));
        net := crossed.value;
      } else {
        var crossed := CrossReadOnly(t);
        net := crossed.value;
      }
    }

    /** The accounting half of an iteration. */
    method ChargeStep(env: Env, p: Progress, step: SwapStep, ghost ticks: Ticks, ghost totals: Totals)
      returns (r: Result<Progress>, ghost totals': Totals)
      ensures match Charge(env, LoopOf(p, ticks, totals), step)
              case Err(e) => r == Err(e)
              case Ok(charged) => r.Ok? && charged == LoopOf(r.value, ticks, totals')
    {
      hide Settle, ProtocolSplit, Grow;
      totals' := totals;
      var settled := SettleStep(env, LoopOf(p, ticks, totals), p.remaining, p.calculated, step);
      if settled.Err? {
        return Err(settled.error), totals;
      }
      var split := ProtocolSplit(step.amountIn, step.fee, env.fee, env.protocolPips);
      if split.Err? {
        return Err(split.error), totals;
      }
      var (lpFee, cut) := split.value;
      SplitIsExact(step.amountIn, step.fee, env.fee, env.protocolPips);
      SettledFits(env, LoopOf(p, ticks, totals), step);
      if p.protocol + cut >= W256 {
        return Err(AmountOverflow), totals;
      }
      var growth := GrowStep(p.growth, lpFee, p.liquidity);
      if growth.Err? {
        return Err(growth.error), totals;
      }
      r := Ok(p.(remaining := settled.value.0, calculated := settled.value.1, protocol := p.protocol + cut,
                 growth := growth.value));
      totals' := Totals(totals.amountIn + step.amountIn, totals.amountOut + step.amountOut,
                        totals.lpFees + lpFee, totals.protocolFees + cut, totals.crossed);
    }

    /** The moving half: cross the target if it was reached, and set price, tick and liquidity. */
    method AdvanceStep(env: Env, p: Progress, t: TickIndex, tickPrice: Price, initialized: bool, step: SwapStep,
                       charged: Progress,
                       ghost totals: Totals, ghost totals1: Totals)
      returns (r: Result<Progress>, ghost totals': Totals)
      requires Valid() && env.grid == grid && env.spacing == spacing && tickPrice == grid(t)
      requires initialized ==> t in tickMap && Aligned(t, spacing)
      modifies if env.mutate then {this} + ticks.Footprint() else {}
      ensures Valid() && OnlyTicks()
      ensures match Advance(env, LoopOf(p, old(tickMap), totals), Target(t, initialized), step,
                            LoopOf(charged, old(tickMap), totals1))
              case Failed(e, m) => r == Err(e) && tickMap == m
              case Reached(s') => r.Ok? && s' == LoopOf(r.value, tickMap, totals')
    {
      hide Valid, Aligned, TickAt, Cross, ticks.Footprint;
      totals' := totals1;
      var reached := step.next == tickPrice;
      var moved := step.next != p.price;
      var tick := if reached then (if env.zeroForOne then t - 1 else t)
                  else if moved then TickAt(grid, step.next) else p.tick;
      if reached && initialized {
        var net: int := CrossFor(env, t, charged.growth);
        var liquidity := p.liquidity + (if env.zeroForOne then 0 - net else net);
        if !(0 <= liquidity < W128) {
          return Err(LiquidityUnderflow), totals1;
        }
        r := Ok(charged.(price := step.next, tick := tick, liquidity := liquidity));
        totals' := totals1.(crossed := totals1.crossed + [t]);
      } else {
        r := Ok(charged.(price := step.next, tick := tick));
      }
    }

    /** One iteration of the swap loop. */
    method TakeStep(env: Env, p: Progress, ghost totals: Totals) returns (r: Result<Progress>, ghost totals': Totals)
      requires Valid() && env.grid == grid && env.spacing == spacing
      requires LoopOk(env, LoopOf(p, tickMap, totals)) && !Done(env, LoopOf(p, tickMap, totals))
      modifies if env.mutate then {this} + ticks.Footprint() else {}
      ensures Valid() && OnlyTicks()
      ensures match StepOnce(env, LoopOf(p, old(tickMap), totals))
              case Failed(e, m) => r == Err(e) && tickMap == m
              case Reached(s') => r.Ok? && s' == LoopOf(r.value, tickMap, totals')
    {
      hide Valid, Aligned, ticks.Footprint, NextTarget, ComputeSwapStep, Charge, Advance, LoopOk, PriceTarget;
      ghost var s := LoopOf(p, tickMap, totals);
      var t, tickPrice, initialized := FindTarget(env, s, p.tick);
      NotDone(env, s);
      var target := PriceTarget(env.zeroForOne, tickPrice, env.limit);
      var computed := ComputeSwapStep(p.price, target, p.liquidity, p.remaining, env.fee);
      if computed.Err? {
        return Err(computed.error), totals;
      }
      label Found:
      var charged, totals1 := ChargeStep(env, p, computed.value, tickMap, totals);
      Undisturbed@Found();
      if charged.Err? {
        return Err(charged.error), totals;
      }
      r, totals' := AdvanceStep(env, p, t, tickPrice, initialized, computed.value, charged.value, totals, totals1);
    }

    /** Nothing of the ticks was written: the pool is still valid. */
    twostate lemma Undisturbed()
      requires old(Valid()) && tickMap == old(tickMap)
      requires unchanged(ticks) && unchanged(ticks.bitmap)
      requires unchanged(ticks.bitmap.layer0) && unchanged(ticks.bitmap.layer1)
      requires unchanged(ticks.cache) && unchanged(ticks.values)
      requires forall c :: c in ticks.pages ==> unchanged(ticks.pages[c]) && unchanged(ticks.pages[c].slots)
      ensures Valid() && ticks.Footprint() == old(ticks.Footprint())
    {
      hide ticks.Valid, ticks.Footprint, InfosOf, Storable;
      ticks.Undisturbed();
    }

    /** `swap_inner`: the loop shared by swaps and quotes; only a swap may write. */
    method SwapInner(fee: SwapFee, params: SwapParams, mutate: bool) returns (r: Result<SwapResult>)
      requires Valid() && SwapReady(grid, Value(), params)
      modifies if mutate then {this} + ticks.Footprint() else {}
      ensures Valid() && swapFee == old(swapFee)
      ensures forall o :: o in ticks.Footprint() ==> o in old(ticks.Footprint()) || fresh(o)
      ensures var c := CallSwap(grid, spacing, old(Value()), fee, params.(lpFeeOverride := None), mutate);
              r == c.result && Value() == c.pool
    {
      hide Valid, ticks.Footprint, Run, LoopOk, StepOnce, Distance, SwapReady, Growth;
      var env := StartEnv(grid, spacing, state, fee, params, mutate);
      if params.specified == 0 {
        return Ok(SwapResult(0, 0, 0, env.fee, state.price, state.tick, state.liquidity));
      }
      if LimitExceeded(params, state.price) {
        return Err(PriceLimitAlreadyExceeded);
      }
      StartOk(grid, spacing, Value(), fee, params, mutate);
      ghost var start := StartLoop(Value(), params);
      var p := Progress(state.price, state.tick, state.liquidity, params.specified, 0,
                        Growth(state, params.zeroForOne), 0);
      ghost var totals := NO_TOTALS;
      while !(p.remaining == 0 || p.price == params.limit)
        invariant Valid() && OnlyTicks()
        invariant LoopOk(env, LoopOf(p, tickMap, totals))
        invariant Run(env, start) == Run(env, LoopOf(p, tickMap, totals))
        decreases Distance(env, LoopOf(p, tickMap, totals))
      {
        if p.liquidity == 0 {
          break;
        }
        RunUnfolds(env, LoopOf(p, tickMap, totals));
        var next;
        next, totals := TakeStep(env, p, totals);
        if next.Err? {
          return Err(next.error);
        }
        p := next.value;
      }
      RunEnds(env, LoopOf(p, tickMap, totals));
      r := FinishSwap(env, p, totals);
    }

    /** `swap`: the pool ends as specified, and a successful swap keeps the pool reconciled with its positions. */
    method Swap(params: SwapParams) returns (r: Result<SwapResult>)
      requires Valid() && SwapReady(grid, Value(), params)
      modifies this, ticks.Footprint()
      ensures Valid() && swapFee == old(swapFee)
      ensures forall o :: o in ticks.Footprint() ==> o in old(ticks.Footprint()) || fresh(o)
      ensures var c := CallSwap(grid, spacing, old(Value()), swapFee, params, true);
              r == c.result && Value() == c.pool
      ensures PoolInv(grid, spacing, old(Value())) && r.Ok? ==> PoolInv(grid, spacing, Value())
    {
      hide Valid, ticks.Footprint, CallSwap, SwapReady, PoolInv;
      var fee := CallFee(swapFee, params);
      if fee.Err? {
        RefusedFee(grid, spacing, Value(), swapFee, params, true);
        return Err(fee.error);
      }
      OverrideApplied(grid, spacing, Value(), swapFee, params, true);
      if PoolInv(grid, spacing, Value()) {
        SwapEffect(grid, spacing, Value(), swapFee, params, true);
      }
      ParamsReady(grid, Value(), params);
      r := SwapInner(fee.value, params, true);
    }

    /** `quote_swap`: the result of the swap with the same parameters, with nothing written. */
    method QuoteSwap(params: SwapParams) returns (r: Result<SwapResult>)
      requires Valid() && SwapReady(grid, Value(), params)
      ensures r == CallSwap(grid, spacing, Value(), swapFee, params, true).result
    {
      hide Valid, ticks.Footprint, CallSwap, SwapReady;
      QuoteEqualsSwap(grid, spacing, Value(), swapFee, params);
      var fee := CallFee(swapFee, params);
      if fee.Err? {
        RefusedFee(grid, spacing, Value(), swapFee, params, true);
        return Err(fee.error);
      }
      OverrideApplied(grid, spacing, Value(), swapFee, params, false);
      ParamsReady(grid, Value(), params);
      r := SwapInner(fee.value, params, false);
    }

    /** After the loop: the amounts as 128-bit integers, and the commit of the state. */
    method FinishSwap(env: Env, p: Progress, ghost totals: Totals) returns (r: Result<SwapResult>)
      requires Valid()
      modifies if env.mutate then {this} else {}
      ensures Valid() && swapFee == old(swapFee) && ticks.Footprint() == old(ticks.Footprint())
      ensures tickMap == old(tickMap) && positions.entries == old(positions.entries)
      ensures var c := Finish(env, old(Value()), LoopOf(p, tickMap, totals));
              r == c.result && Value() == c.pool
    {
      hide ticks.Valid, ticks.Footprint, InfosOf, Storable;
      var specified := env.specified - p.remaining;
      var (delta0, delta1) := if env.zeroForOne == (env.specified < 0) then (specified, p.calculated)
                              else (p.calculated, specified);
      if !FitsI128(delta0) || !FitsI128(delta1) {
        return Err(I128Overflow);
      }
      if env.mutate {
        state := PoolState(p.price, p.tick, p.liquidity, Growth0(env, p.growth), Growth1(env, p.growth));
      }
      r := Ok(SwapResult(delta0, delta1, p.protocol, env.fee, p.price, p.tick, p.liquidity));
    }
  }

  /**
    `try_fork`: an independent copy through a validated snapshot. It succeeds
    iff the pool is reconciled and at the floor tick of its price, and the copy
    shares no storage with the original.
  */
  method TryFork(pool: Pool) returns (r: Result<Pool>)
    requires pool.Valid() && pool.swapFee.Valid()
    ensures r.Ok? <==> Restorable(pool.grid, pool.spacing, pool.Value(), pool.swapFee.protocolFee)
    ensures r.Ok? ==>
              && r.value.Valid() && r.value.Value() == pool.Value() && r.value.swapFee == pool.swapFee
              && fresh(r.value) && fresh(r.value.positions) && fresh(r.value.ticks.Footprint())
  {
    hide Restorable, InfosOf, Storable, TickSlab.Valid, EntryError;
    ghost var tickMap := pool.tickMap;
    TicksRoundTrip(pool.grid, pool.spacing, tickMap);
    var ticks := Snapshot(pool.ticks);
    StorableInRange(tickMap, pool.spacing);
    var valid := Validate(pool.grid, pool.spacing, pool.state, pool.swapFee.protocolFee, pool.ticks.spacing, ticks,
                          pool.positions);
    if valid.Err? {
      return Err(valid.error);
    }
    AllAccepted(pool.grid, pool.spacing, pool.Value(), pool.swapFee.protocolFee);
    var positions := new PositionStore.Of(pool.positions.entries);
    var rebuilt := FromSnapshot(pool.grid, pool.spacing, ticks);
    RebuiltFee(pool.swapFee);
    var fee := SwapFee.FromLpFee(pool.swapFee.lpFee, pool.swapFee.protocolFee);
    var fork := new Pool.Restore(pool.grid, pool.state, fee.value, rebuilt.value, positions, tickMap);
    r := Ok(fork);
  }

  lemma StorableInRange(ticks: Ticks, spacing: Spacing)
    requires Storable(ticks, spacing)
    ensures KeysInRange(ticks)
  {
  }

  /** The ticks of a restorable pool pass every check of `from_snapshot`. */
  lemma AllAccepted(grid: Grid, spacing: Spacing, pool: PoolValue, protocolFee: ProtocolFee)
    requires Restorable(grid, spacing, pool, protocolFee)
    ensures forall t :: t in pool.ticks ==> EntryError(t, pool.ticks[t], spacing) == None
  {
    hide Bracket, Reconciled, KeysOk, Capped, ActiveAt, TickAt;
    forall t | t in pool.ticks
      ensures EntryError(t, pool.ticks[t], spacing) == None
    {
      ReconciledAccepted(pool.ticks, pool.positions, spacing, t);
    }
  }

  /** An LP fee override is the same as a pool whose stored fee is already the overridden one. */
  lemma OverrideApplied(grid: Grid, spacing: Spacing, pool: PoolValue, swapFee: SwapFee, params: SwapParams,
                        mutate: bool)
    requires SwapReady(grid, pool, params) && CallFee(swapFee, params).Ok?
    ensures SwapReady(grid, pool, params.(lpFeeOverride := None))
    ensures CallSwap(grid, spacing, pool, swapFee, params, mutate)
         == CallSwap(grid, spacing, pool, CallFee(swapFee, params).value, params.(lpFeeOverride := None), mutate)
  {
    hide Run, Bracket, KeysInRange;
  }

  lemma RefusedFee(grid: Grid, spacing: Spacing, pool: PoolValue, swapFee: SwapFee, params: SwapParams, mutate: bool)
    requires SwapReady(grid, pool, params) && CallFee(swapFee, params).Err?
    ensures var c := CallSwap(grid, spacing, pool, swapFee, params, mutate);
            c.result == Err(CallFee(swapFee, params).error) && c.pool == pool
  {
    hide Run, Bracket, KeysInRange;
  }

  lemma ParamsReady(grid: Grid, pool: PoolValue, params: SwapParams)
    requires SwapReady(grid, pool, params)
    ensures SwapReady(grid, pool, params.(lpFeeOverride := None))
  {
    hide Bracket, KeysInRange;
  }

  lemma RunUnfolds(env: Env, s: Loop)
    requires LoopOk(env, s) && !Done(env, s)
    ensures match StepOnce(env, s)
            case Failed(e, m) => Run(env, s) == Failed(e, m)
            case Reached(s') => LoopOk(env, s') && Run(env, s) == Run(env, s') && Distance(env, s') < Distance(env, s)
  {
    hide StepOnce, LoopOk, Distance;
    StepProgress(env, s);
  }

  lemma RunEnds(env: Env, s: Loop)
    requires LoopOk(env, s) && Done(env, s)
    ensures Run(env, s) == Reached(s)
  {
    hide StepOnce, LoopOk, Distance;
  }

  /** The remaining and the calculated amount after a step, with the source's checked conversions. */
  method SettleStep(env: Env, ghost s: Loop, remaining: I256, calculated: I256,
                    step: SwapStep) returns (r: Result<(I256, I256)>)
    requires s.remaining == remaining && s.calculated == calculated
    ensures r == Settle(env, s, step)
  {
    if env.specified > 0 {
      if step.amountOut >= W255 {
        return Err(SignedOverflow);
      }
      if !(0 - W255 <= remaining - step.amountOut < W255) {
        return Err(AmountOverflow);
      }
      if step.amountIn + step.fee >= W256 {
        return Err(AmountOverflow);
      }
      if step.amountIn + step.fee >= W255 {
        return Err(SignedOverflow);
      }
      if !(0 - W255 <= calculated - (step.amountIn + step.fee) < W255) {
        return Err(AmountOverflow);
      }
      r := Ok((remaining - step.amountOut, calculated - (step.amountIn + step.fee)));
    } else {
      if step.amountIn + step.fee >= W256 {
        return Err(AmountOverflow);
      }
      if step.amountIn + step.fee >= W255 {
        return Err(SignedOverflow);
      }
      if !(0 - W255 <= remaining + (step.amountIn + step.fee) < W255) {
        return Err(AmountOverflow);
      }
      if step.amountOut >= W255 {
        return Err(SignedOverflow);
      }
      if !(0 - W255 <= calculated + step.amountOut < W255) {
        return Err(AmountOverflow);
      }
      r := Ok((remaining + (step.amountIn + step.fee), calculated + step.amountOut));
    }
  }

  /** The growth accumulator after a fee is shared by the active liquidity. */
  method GrowStep(growth: U256, lpFee: U256, liquidity: U128) returns (r: Result<U256>)
    ensures r == Grow(growth, lpFee, liquidity)
  {
    hide FloorQuotient;
    W128Fits();
    var share := MulDiv(lpFee, W128, liquidity);
    if share.Err? {
      return Err(FeeTooLarge);
    }
    if growth + share.value >= W256 {
      return Err(FeeTooLarge);
    }
    r := Ok(growth + share.value);
  }

  lemma SettledFits(env: Env, s: Loop, step: SwapStep)
    requires Settle(env, s, step).Ok?
    ensures step.amountIn + step.fee < W256
  {
  }
}
