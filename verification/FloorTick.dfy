/**
  When the stored tick is the floor tick of the price. The pool state documents
  this as an invariant and snapshots are validated against it, but a downward
  step that ends exactly on its target tick stores the tick below.
*/
module FloorTick {
  import opened Arith
  import opened Bits
  import opened Words
  import opened Wrappers
  import opened SqrtPriceMath
  import opened SwapMath
  import opened Fees
  import opened PoolTypes
  import opened PoolSpec
  import opened Sums
  import opened Reconciliation
  import opened SwapSpec
  import opened Traversal
  import opened SwapCall
  import opened PoolSnapshots
  import opened ModifyEffects
  import opened Histories
  import opened TickSlabIndexer

  lemma FloorTickUnique(grid: Grid, p: Price, t: TickIndex)
    requires grid(t) <= p && (t < MAX_TICK ==> p < grid(t + 1))
    ensures t == TickAt(grid, p)
  {
    hide TickAt, IsGrid;
    TickAtIsFloor(grid, p);
    var u := TickAt(grid, p);
    if t < u {
      GridMono(grid, t + 1, u);
    } else if u < t {
      GridMono(grid, u + 1, t);
    }
  }

  /** A tick that brackets the price is its floor unless the price is that of the next tick. */
  lemma BracketFloor(grid: Grid, tick: int, p: Price)
    requires Bracket(grid, tick, p)
    ensures tick == TickAt(grid, p) <==> (tick < MAX_TICK ==> p != grid(tick + 1))
  {
    hide TickAt, IsGrid;
    TickAtIsFloor(grid, p);
    if tick < MAX_TICK ==> p != grid(tick + 1) {
      FloorTickUnique(grid, p, tick);
    }
  }

  /**
    Exactly when an iteration ends on the floor tick: if it reached its target
    price, iff it goes up; otherwise iff it moved the price or started on the
    floor tick.
  */
  lemma StepFloor(env: Env, s: Loop)
    requires LoopOk(env, s) && !Done(env, s) && StepOnce(env, s).Reached?
    ensures var s' := StepOnce(env, s).loop;
            s'.tick == TickAt(env.grid, s'.price)
            <==> if s'.price == env.grid(NextTarget(env, s).tick) then !env.zeroForOne
                 else s'.price != s.price || s.tick == TickAt(env.grid, s.price)
  {
    hide NextTarget, IsGrid, Charge, Bracket, StepSound, TickAt, Cross, LoopOk, StepOnce;
    var target, step, charged := StepAnatomy(env, s);
    TargetSide(env, s);
    StepProgress(env, s);
    AdvanceTick(env, s, target, step, charged);
    var s' := StepOnce(env, s).loop;
    BracketFloor(env.grid, s'.tick, s'.price);
    if s'.price == env.grid(target.tick) {
      BracketRange(env.grid, s'.tick, s'.price);
      if !env.zeroForOne && target.tick < MAX_TICK {
        GridMono(env.grid, target.tick, target.tick + 1);
      }
    }
  }

  lemma AdvanceTick(env: Env, s: Loop, target: Target, step: SwapStep, charged: Loop)
    requires target.initialized ==> target.tick in s.ticks
    requires Advance(env, s, target, step, charged).Reached?
    ensures var s' := Advance(env, s, target, step, charged).loop;
            && s'.price == step.next
            && s'.tick == (if step.next == env.grid(target.tick)
                           then (if env.zeroForOne then target.tick - 1 else target.tick)
                           else if step.next != s.price then TickAt(env.grid, step.next)
                           else s.tick)
  {
    hide TickAt, Cross;
  }

  /** A run upwards keeps the floor tick. */
  lemma {:induction false} RunUpKeepsFloor(env: Env, s: Loop)
    requires LoopOk(env, s) && Run(env, s).Reached? && !env.zeroForOne
    requires s.tick == TickAt(env.grid, s.price)
    ensures var f := Run(env, s).loop;
            f.tick == TickAt(env.grid, f.price)
    decreases Distance(env, s)
  {
    hide NextTarget, IsGrid, StepOnce, Bracket, TickAt;
    if !Done(env, s) {
      StepProgress(env, s);
      StepFloor(env, s);
      RunUpKeepsFloor(env, StepOnce(env, s).loop);
    }
  }

  /** Liquidity changes, and swaps that go up, lead from restorable pools to restorable pools. */
  lemma ModifyKeepsRestorable(grid: Grid, pool: PoolValue, spacing: Spacing, params: ModifyParams, fee: ProtocolFee)
    requires Restorable(grid, spacing, pool, fee) && Modify(grid, pool, spacing, params).0.Ok?
    ensures Restorable(grid, spacing, Modify(grid, pool, spacing, params).1, fee)
  {
    hide PoolInv, TickAt, Resized;
    ModifyKeepsInv(grid, pool, spacing, params);
    ModifyKeepsPrice(grid, pool, spacing, params);
  }

  lemma ModifyKeepsPrice(grid: Grid, pool: PoolValue, spacing: Spacing, params: ModifyParams)
    ensures var pool' := Modify(grid, pool, spacing, params).1;
            pool'.state.price == pool.state.price && pool'.state.tick == pool.state.tick
  {
    hide UpdateBoundaries, FeeGrowthInside, UpdatePosition, Principal, CheckTicks;
  }

  lemma SwapUpKeepsRestorable(grid: Grid, spacing: Spacing, pool: PoolValue, swapFee: SwapFee, params: SwapParams,
                              fee: ProtocolFee)
    requires Restorable(grid, spacing, pool, fee) && SwapReady(grid, pool, params) && !params.zeroForOne
    requires CallSwap(grid, spacing, pool, swapFee, params, true).result.Ok?
    ensures Restorable(grid, spacing, CallSwap(grid, spacing, pool, swapFee, params, true).pool, fee)
  {
    hide PoolInv, TickAt, Run, LoopOk, Bracket, KeysInRange, CallFee, Growth;
    SwapEffect(grid, spacing, pool, swapFee, params, true);
    var called := CallFee(swapFee, params);
    if params.specified != 0 {
      StartOk(grid, spacing, pool, called.value, params, true);
      RunUpKeepsFloor(StartEnv(grid, spacing, pool.state, called.value, params, true), StartLoop(pool, params));
    }
  }

  // ------------------------------------------------------- downward swaps

  /**
    Whether a downward iteration lands on its target tick, read off before it
    is made: the limit lets it get there, and the remaining amount takes it there.
  */
  ghost predicate LandsOnTarget(env: Env, s: Loop) {
    var p := env.grid(NextTarget(env, s).tick);
    env.limit <= p && ReachesDown(s.price, p, s.liquidity, s.remaining, env.fee)
  }

  lemma LandsExactly(env: Env, s: Loop)
    requires LoopOk(env, s) && !Done(env, s) && StepOnce(env, s).Reached? && env.zeroForOne
    ensures StepOnce(env, s).loop.price == env.grid(NextTarget(env, s).tick) <==> LandsOnTarget(env, s)
  {
    hide NextTarget, NextInitialized, IsGrid, Charge, Bracket, ComputeSwapStep, Advance, ReachesDown, StepSound;
    NotDone(env, s);
    TargetSide(env, s);
    TargetPriceSide(env, s);
    var target := NextTarget(env, s);
    var p := env.grid(target.tick);
    var price := PriceTarget(true, p, env.limit);
    BracketRange(env.grid, s.tick, s.price);
    GridMono(env.grid, target.tick, s.tick);
    StepTotalAndSound(s.price, price, s.liquidity, s.remaining, env.fee);
    var step := ComputeSwapStep(s.price, price, s.liquidity, s.remaining, env.fee).value;
    AdvanceTick(env, s, target, step, Charge(env, s, step).value);
    StepBounds(s.price, price, s.liquidity, s.remaining, env.fee, step);
    if env.limit <= p {
      ReachesDownExact(s.price, p, s.liquidity, s.remaining, env.fee);
    }
  }

  lemma StepBounds(current: Price, target: Price, liquidity: nat, amount: int, fee: Fee, step: SwapStep)
    requires StepSound(current, target, liquidity, amount, fee, step)
    ensures Min(current, target) <= step.next <= Max(current, target)
  {
    hide CoversAmount0, CoversAmount1, WithinAmount0, WithinAmount1;
  }

  /**
    Whether a downward run ends below the floor: some iteration landed on its
    target and none has moved the price since.
  */
  ghost predicate EndsBelowFloor(env: Env, s: Loop, below: bool)
    requires LoopOk(env, s) && Run(env, s).Reached? && env.zeroForOne
    decreases Distance(env, s)
  {
    hide StepOnce, LandsOnTarget;
    if Done(env, s) then below
    else
      StepProgress(env, s);
      NotDone(env, s);
      var s' := StepOnce(env, s).loop;
      EndsBelowFloor(env, s', LandsOnTarget(env, s) || (below && s'.price == s.price))
  }

  /** A downward run ends on the floor tick exactly when its last iteration that moved does not land on its target. */
  lemma {:induction false} RunDownFloor(env: Env, s: Loop)
    requires LoopOk(env, s) && Run(env, s).Reached? && env.zeroForOne
    ensures var f := Run(env, s).loop;
            f.tick == TickAt(env.grid, f.price) <==> !EndsBelowFloor(env, s, s.tick != TickAt(env.grid, s.price))
    decreases Distance(env, s)
  {
    hide NextTarget, IsGrid, StepOnce, Bracket, TickAt, LandsOnTarget;
    if !Done(env, s) {
      StepProgress(env, s);
      StepFloor(env, s);
      LandsExactly(env, s);
      RunDownFloor(env, StepOnce(env, s).loop);
    }
  }

  /** A successful downward swap leads to a restorable pool iff its run does not end below the floor. */
  lemma SwapDownRestorable(grid: Grid, spacing: Spacing, pool: PoolValue, swapFee: SwapFee, params: SwapParams,
                           fee: ProtocolFee)
    requires Restorable(grid, spacing, pool, fee) && SwapReady(grid, pool, params) && params.zeroForOne
    requires CallSwap(grid, spacing, pool, swapFee, params, true).result.Ok?
    ensures Restorable(grid, spacing, CallSwap(grid, spacing, pool, swapFee, params, true).pool, fee)
            <==> params.specified == 0
                 || (var env := StartEnv(grid, spacing, pool.state, CallFee(swapFee, params).value, params, true);
                     var s := StartLoop(pool, params);
                     && LoopOk(env, s) && Run(env, s).Reached?
                     && !EndsBelowFloor(env, s, false))
  {
    hide PoolInv, TickAt, Run, LoopOk, Bracket, KeysInRange, CallFee, Growth, EndsBelowFloor;
    SwapEffect(grid, spacing, pool, swapFee, params, true);
    var called := CallFee(swapFee, params);
    if params.specified != 0 {
      StartOk(grid, spacing, pool, called.value, params, true);
      RunDownFloor(StartEnv(grid, spacing, pool.state, called.value, params, true), StartLoop(pool, params));
    }
  }

  /**
    A caller can tell beforehand, in either direction: the swap leads to a
    restorable pool iff the quoted price is not the price of the tick after the
    quoted one.
  */
  lemma QuoteTellsRestorable(grid: Grid, spacing: Spacing, pool: PoolValue, swapFee: SwapFee, params: SwapParams,
                             fee: ProtocolFee)
    requires Restorable(grid, spacing, pool, fee) && SwapReady(grid, pool, params)
    requires CallSwap(grid, spacing, pool, swapFee, params, false).result.Ok?
    ensures var quoted := CallSwap(grid, spacing, pool, swapFee, params, false).result.value;
            var swapped := CallSwap(grid, spacing, pool, swapFee, params, true);
            && swapped.result.Ok?
            && (Restorable(grid, spacing, swapped.pool, fee)
                <==> (MIN_TICK <= quoted.tick < MAX_TICK ==> quoted.price != grid(quoted.tick + 1)))
  {
    hide CallSwap, TickAt, PoolInv, SwapReady;
    QuoteEqualsSwap(grid, spacing, pool, swapFee, params);
    SwapEffect(grid, spacing, pool, swapFee, params, true);
    var c := CallSwap(grid, spacing, pool, swapFee, params, true);
    ResultIsState(grid, spacing, pool, swapFee, params);
    InvBracket(grid, c.pool, spacing);
    BracketFloor(grid, c.pool.state.tick, c.pool.state.price);
    BracketRange(grid, c.pool.state.tick, c.pool.state.price);
  }

  /** The result names the price and tick the pool then has. */
  lemma ResultIsState(grid: Grid, spacing: Spacing, pool: PoolValue, swapFee: SwapFee, params: SwapParams)
    requires SwapReady(grid, pool, params)
    ensures var c := CallSwap(grid, spacing, pool, swapFee, params, true);
            c.result.Ok? ==> c.result.value.price == c.pool.state.price && c.result.value.tick == c.pool.state.tick
  {
    hide Run, CallFee, Bracket, Growth;
  }

  // -------------------------------------------- a pool that cannot be forked

  /** One position of liquidity 1 over [0, 1), at the price of tick 0. */
  const UNIT_KEY: PositionKey := PositionKey(0, 0, 1, 0)

  ghost function UnitPool(grid: Grid): PoolValue {
    UnitsFit();
    PoolValue(PoolState(grid(0), 0, 1, 0, 0),
              map[0 := TickInner(1, 1, 0, 0), 1 := TickInner(1, -1, 0, 0)],
              map[UNIT_KEY := Position(1, 0, 0)])
  }

  lemma UnitsFit()
    ensures 1 < W127 && 1 < W128 && 1 < W255 && 0 < W256 && 0 - W127 <= -1 && 0 - W255 <= -1
  {
  }

  const NO_FEE: SwapFee := SwapFee(Some(0), ProtocolFee(0, 0), 0, 0)

  /** Sells one unit of token0 with the given price limit. */
  function SellOne(limit: Price): SwapParams {
    UnitsFit();
    SwapParams(true, -1, limit, None)
  }

  lemma UnitPoolRestorable(grid: Grid)
    ensures Restorable(grid, 1, UnitPool(grid), NO_FEE.protocolFee)
  {
    hide IsGrid, TickAt, MaxLiquidityPerTick;
    UnitsFit();
    GridMono(grid, 0, 1);
    FloorTickUnique(grid, grid(0), 0);
    var m := UnitPool(grid).positions;
    forall t
      ensures GrossAt(m, t) == (if t == 0 || t == 1 then 1 else 0)
      ensures NetAt(m, t) == (if t == 0 then 1 else if t == 1 then -1 else 0)
      ensures ActiveAt(m, 0) == 1
    {
      SumOfOne(GrossPart(m, t));
      SumOfOne(NetPart(m, t));
      SumOfOne(ActivePart(m, 0));
    }
    CapAtLeastOne();
  }

  lemma SumOfOne(f: PositionKey -> int)
    ensures Sum(map[UNIT_KEY := Position(1, 0, 0)].Keys, f) == f(UNIT_KEY)
  {
    var keys := map[UNIT_KEY := Position(1, 0, 0)].Keys;
    SumRemove(keys, f, UNIT_KEY);
    assert keys - {UNIT_KEY} == {};
  }

  lemma CapAtLeastOne()
    ensures 1 <= MaxLiquidityPerTick(1)
  {
    hide Pow2, Div;
    UsableByOne();
    SmallPowers();
    Pow2Monotone(21, 128);
    FloorAtLeast(W128 - 1, UsableTicks(1), 1);
  }

  lemma UsableByOne()
    ensures UsableTicks(1) == 1774545
  {
    DivModUniqueInt(MAX_TICK, 1, MAX_TICK, 0);
    DivModUniqueInt(MIN_TICK, 1, MIN_TICK, 0);
  }

  ghost function UnitEnv(grid: Grid, limit: Price): Env {
    StartEnv(grid, 1, UnitPool(grid).state, NO_FEE, SellOne(limit), true)
  }

  ghost function UnitLoop(grid: Grid, limit: Price): Loop {
    StartLoop(UnitPool(grid), SellOne(limit))
  }

  lemma UnitReady(grid: Grid, limit: Price)
    requires MIN_SQRT_PRICE < limit < grid(0)
    ensures SwapReady(grid, UnitPool(grid), SellOne(limit))
    ensures LoopOk(UnitEnv(grid, limit), UnitLoop(grid, limit)) && !Done(UnitEnv(grid, limit), UnitLoop(grid, limit))
    ensures grid(0) < MAX_SQRT_PRICE
  {
    hide IsGrid;
    GridMono(grid, 0, 1);
    GridTop(grid);
    GridMono(grid, 0, MAX_TICK);
    UnitsFit();
  }

  /** The first target is the tick the price stands on. */
  lemma UnitTarget(grid: Grid, limit: Price)
    requires MIN_SQRT_PRICE < limit < grid(0)
    ensures NextTarget(UnitEnv(grid, limit), UnitLoop(grid, limit)) == Target(0, true)
  {
    hide IsGrid, NextInitialized;
    NextInitializedIsNearest(UnitPool(grid).ticks, 0, true);
    DivModUniqueInt(0, 1, 0, 0);
    assert 0 in UnitPool(grid).ticks;
    assert WordBoundary(0, 1, true) == 0;
    assert NextInitialized(UnitPool(grid).ticks, 0, true) == Some(0);
  }

  /** The zero-width step crosses it, and no liquidity is left. */
  lemma UnitStep(grid: Grid, limit: Price)
    requires MIN_SQRT_PRICE < limit < grid(0)
    requires LoopOk(UnitEnv(grid, limit), UnitLoop(grid, limit)) && !Done(UnitEnv(grid, limit), UnitLoop(grid, limit))
    ensures var r := StepOnce(UnitEnv(grid, limit), UnitLoop(grid, limit));
            && r.Reached? && r.loop.price == grid(0) && r.loop.tick == -1 && r.loop.liquidity == 0
            && -1 <= r.loop.remaining <= 0 && r.loop.calculated == 0
  {
    hide IsGrid, NextTarget, NextInitialized, ComputeSwapStep, LoopOk, TickAt, Bracket, CoversAmount0,
         CoversAmount1, WithinAmount0;
    var env, s := UnitEnv(grid, limit), UnitLoop(grid, limit);
    UnitTarget(grid, limit);
    StepTotalAndSound(grid(0), grid(0), 1, -1, 0);
    var step := ComputeSwapStep(grid(0), grid(0), 1, -1, 0).value;
    NothingWithin(step.amountOut, grid(0));
    UnitCharge(env, s, step);
  }

  lemma NothingWithin(amount: nat, p: Price)
    requires WithinAmount1(amount, p, p, 1)
    ensures amount == 0
  {
  }

  lemma UnitCharge(env: Env, s: Loop, step: SwapStep)
    requires env.specified == -1 && env.protocolPips == 0 && s.remaining == -1 && s.calculated == 0
    requires s.growth == 0 && s.protocol == 0 && s.liquidity == 1
    requires step.amountOut == 0 && step.amountIn + step.fee <= 1
    ensures var c := Charge(env, s, step);
            c.Ok? && -1 <= c.value.remaining <= 0 && c.value.calculated == 0
  {
    hide Pow2;
    UnitsFit();
    Pow2StrictlyMonotone(128, 256);
    DivModByOne(0);
    DivModByOne(W128);
  }

  /**
    A restorable pool and a successful swap after which it is not restorable:
    the price still is that of tick 0, but the stored tick is -1.
  */
  lemma DownSwapLosesFloor(grid: Grid, limit: Price)
    requires MIN_SQRT_PRICE < limit < grid(0)
    ensures Restorable(grid, 1, UnitPool(grid), NO_FEE.protocolFee)
    ensures SwapReady(grid, UnitPool(grid), SellOne(limit))
    ensures var c := CallSwap(grid, 1, UnitPool(grid), NO_FEE, SellOne(limit), true);
            && c.result.Ok?
            && c.pool.state.price == grid(0) && c.pool.state.tick == -1 && TickAt(grid, grid(0)) == 0
            && !Restorable(grid, 1, c.pool, NO_FEE.protocolFee)
  {
    hide IsGrid, TickAt, StepOnce, LoopOk, Bracket, KeysInRange, PoolInv;
    UnitPoolRestorable(grid);
    UnitReady(grid, limit);
    UnitsFit();
    var env, s := UnitEnv(grid, limit), UnitLoop(grid, limit);
    UnitStep(grid, limit);
    StepProgress(env, s);
    assert Run(env, s) == Reached(StepOnce(env, s).loop);
  }
}
