/**
  A reachable pool with fees nobody can collect, and in which the same swap is
  refused a second time: one swap whose fee absorbs its whole input of 2^127, on
  a pool with a single unit of liquidity.
*/
module LostFees {
  import opened Arith
  import opened Bits
  import opened Words
  import opened Wrappers
  import opened SqrtPriceMath
  import opened SwapMath
  import opened Fees
  import opened PoolTypes
  import opened PoolSpec
  import opened Reconciliation
  import opened SwapSpec
  import opened ModifyEffects
  import opened SwapCall
  import opened GrowthLimit
  import opened Histories
  import opened FloorTick
  import opened FailedChanges
  import opened Withdrawals

  /** A new pool at tick 0. */
  ghost function NewWorld(grid: Grid): World {
    ZeroWords();
    World(PoolValue(PoolState(grid(0), 0, 0, 0, 0), map[], map[]), NO_FEE, EMPTY_LEDGER, EMPTY_LEDGER)
  }

  lemma ZeroWords()
    ensures 0 < W128 && 0 < W256 && 0 - W255 <= 0 - W127 <= 1 < W127 < W255 < W256
  {
    hide Pow2;
    UnitsFit();
    Pow2StrictlyMonotone(127, 255);
    Pow2StrictlyMonotone(255, 256);
  }

  /** One unit of liquidity over [0, 1). */
  function AddUnit(): Op {
    ZeroWords();
    ModifyOp(ModifyParams(UNIT_KEY, 1))
  }

  /** 2^127 of token1 in, at an LP fee of 100%. */
  function FeeOnly(limit: Price): SwapParams {
    ZeroWords();
    SwapParams(false, 0 - W127, limit, Some(MAX_FEE))
  }

  /** Collecting the unit position's fees. */
  function Collect(): ModifyParams {
    ZeroWords();
    ModifyParams(UNIT_KEY, 0)
  }

  // ------------------------------------------------------------ the deposit

  lemma UnitTicks(grid: Grid)
    ensures UpdateBoundaries(NewWorld(grid).pool, 1, AddUnit().change)
         == Boundaries(UnitPool(grid).ticks, 0, 0, 0, 0)
    ensures CheckTicks(0, 1, 1).None?
  {
    hide MaxLiquidityPerTick;
    CapAtLeastOne();
    ZeroWords();
  }

  /** Token0 for one unit of liquidity: at most 2^64. */
  lemma UnitAmount0(a: Price, b: Price)
    requires a <= b
    ensures Amount0(a, b, 1, true) <= Pow2(64) <= W127
  {
    hide *;
    PriceBounds(a);
    PriceProductPositive(a, b);
    Widths();
    Pow2Add(64, 32);
    Pow2Monotone(64, 127);
    MulMono(W32, a, Pow2(64));
    MulMono2(b - a, b, Q96, Pow2(64) * a);
    assert b * (Pow2(64) * a) == Pow2(64) * (a * b);
    UnitAmount0Is(a, b);
    CeilAtMost((b - a) * Q96, a * b, Pow2(64));
  }

  lemma UnitAmount0Is(a: Price, b: Price)
    requires a <= b && a * b > 0 && (b - a) * Q96 >= 0
    ensures Amount0(a, b, 1, true) == CeilDiv((b - a) * Q96, a * b)
  {
    hide CeilDiv, Pow2;
  }

  /** The unit's deposit: no token1, and an amount of token0 that fits. */
  lemma UnitPrincipal(grid: Grid)
    ensures 1 < W127
    ensures Principal(0, 0, 1, grid(0), grid(0), grid(1), 1)
         == Ok((0 - Amount0(grid(0), grid(1), 1, true), 0))
  {
    hide GetAmount0Delta, GetAmount1Delta, Amount0, Amount1, IsGrid, Pow2;
    ZeroWords();
    GridMono(grid, 0, 1);
    I128AbsFits(1);
    UnitAmount0(grid(0), grid(1));
    GetAmount0Exact(grid(0), grid(1), 1, true);
    GetAmount1Exact(grid(0), grid(0), 1, true);
    NoAmounts(grid(0), 1);
  }

  lemma UnitAdded(grid: Grid)
    ensures var next := Apply(grid, 1, NewWorld(grid), AddUnit());
            next.Some? && next.value.pool == UnitPool(grid) && next.value.swapFee == NO_FEE
  {
    hide UpdateBoundaries, Principal, IsGrid, Amount0, Pow2;
    UnitTicks(grid);
    UnitPrincipal(grid);
    ZeroWords();
  }

  // --------------------------------------------------------------- the swap

  ghost function FeeEnv(grid: Grid, limit: Price): Env {
    StartEnv(grid, 1, UnitPool(grid).state, SwapFee(Some(MAX_FEE), ProtocolFee(0, 0), MAX_FEE, MAX_FEE),
             FeeOnly(limit), true)
  }

  ghost function FeeLoop(grid: Grid, limit: Price): Loop {
    StartLoop(UnitPool(grid), FeeOnly(limit))
  }

  lemma FeeReady(grid: Grid, limit: Price)
    requires grid(0) < limit < MAX_SQRT_PRICE
    ensures SwapReady(grid, UnitPool(grid), FeeOnly(limit))
    ensures CallFee(NO_FEE, FeeOnly(limit)) == Ok(SwapFee(Some(MAX_FEE), ProtocolFee(0, 0), MAX_FEE, MAX_FEE))
    ensures LoopOk(FeeEnv(grid, limit), FeeLoop(grid, limit)) && !Done(FeeEnv(grid, limit), FeeLoop(grid, limit))
  {
    hide IsGrid;
    GridMono(grid, 0, 1);
    GridTop(grid);
    GridMono(grid, MIN_TICK, 0);
    ZeroWords();
  }

  lemma FeeTarget(grid: Grid, limit: Price)
    requires grid(0) < limit < MAX_SQRT_PRICE
    ensures NextTarget(FeeEnv(grid, limit), FeeLoop(grid, limit)) == Target(1, true)
  {
    hide IsGrid, NextInitialized;
    NextInitializedIsNearest(UnitPool(grid).ticks, 0, false);
    DivModUniqueInt(0, 1, 0, 0);
    assert 1 in UnitPool(grid).ticks;
    assert WordBoundary(0, 1, false) == 255;
    assert NextInitialized(UnitPool(grid).ticks, 0, false) == Some(1);
  }

  /** The step goes nowhere: all of the input is fee. */
  lemma FeeStep(p: Price, target: Price)
    requires p < target
    ensures 0 - W255 <= 0 - W127 < W255
    ensures ComputeSwapStep(p, target, 1, 0 - W127, MAX_FEE) == Ok(SwapStep(p, 0, 0, W127))
  {
    hide Pow2;
    ZeroWords();
  }

  /** Its fee growth is 2^255. */
  lemma FeeCharge(env: Env, s: Loop)
    requires env.specified == 0 - W127 && s.remaining == 0 - W127 && env.protocolPips == 0 && s.calculated == 0
    requires s.growth == 0 && s.protocol == 0 && s.liquidity == 1
    ensures var c := Charge(env, s, SwapStep(s.price, 0, 0, W127));
            && c.Ok? && c.value.remaining == 0 && c.value.calculated == 0
            && c.value.growth == W255 && c.value.protocol == 0
  {
    hide Pow2, Div;
    ZeroWords();
    Widths();
    Pow2Add(127, 128);
    DivModByOne(W127 * W128);
  }

  lemma FeeStepOnce(grid: Grid, limit: Price)
    requires grid(0) < limit < MAX_SQRT_PRICE
    requires !Done(FeeEnv(grid, limit), FeeLoop(grid, limit))
    ensures var r := StepOnce(FeeEnv(grid, limit), FeeLoop(grid, limit));
            && r.Reached? && r.loop.remaining == 0 && r.loop.calculated == 0 && r.loop.growth == W255
            && r.loop.price == grid(0) && r.loop.tick == 0 && r.loop.liquidity == 1
            && r.loop.ticks == UnitPool(grid).ticks && r.loop.protocol == 0
  {
    hide IsGrid, NextTarget, NextInitialized, ComputeSwapStep, TickAt, Charge, UnitPool;
    var env, s := FeeEnv(grid, limit), FeeLoop(grid, limit);
    FeeStart(grid, limit);
    FeeTarget(grid, limit);
    GridMono(grid, 0, 1);
    var price := Min(grid(1), limit);
    FeeStep(grid(0), price);
    FeeCharge(env, s);
    ChargeEffect(env, s, SwapStep(s.price, 0, 0, W127));
  }

  lemma FeeStart(grid: Grid, limit: Price)
    ensures var (env, s) := (FeeEnv(grid, limit), FeeLoop(grid, limit));
            && env.grid == grid && env.spacing == 1 && !env.zeroForOne && env.specified == 0 - W127
            && env.limit == limit && env.fee == MAX_FEE && env.protocolPips == 0 && env.mutate && env.otherGrowth == 0
            && s.price == grid(0) && s.tick == 0 && s.liquidity == 1 && s.remaining == 0 - W127 && s.calculated == 0
            && s.growth == 0 && s.protocol == 0 && s.ticks == UnitPool(grid).ticks
  {
    hide IsGrid;
  }

  /** The unit pool after the swap: token1 growth of 2^255. */
  ghost function FeePool(grid: Grid): PoolValue {
    ZeroWords();
    UnitPool(grid).(state := UnitPool(grid).state.(growth1 := W255))
  }

  lemma FeeSwapped(grid: Grid, limit: Price)
    requires grid(0) < limit < MAX_SQRT_PRICE
    ensures SwapReady(grid, UnitPool(grid), FeeOnly(limit))
    ensures var c := CallSwap(grid, 1, UnitPool(grid), NO_FEE, FeeOnly(limit), true);
            c.result.Ok? && c.pool == FeePool(grid)
  {
    hide IsGrid, TickAt, StepOnce, LoopOk, Bracket, KeysInRange, CallFee, Growth;
    FeeReady(grid, limit);
    ZeroWords();
    var env, s := FeeEnv(grid, limit), FeeLoop(grid, limit);
    FeeStart(grid, limit);
    FeeStepOnce(grid, limit);
    StepProgress(env, s);
    assert Run(env, s) == Reached(StepOnce(env, s).loop);
  }

  /** The deposit and the swap, one after the other. */
  lemma FeeHistory(grid: Grid, limit: Price)
    requires grid(0) < limit < MAX_SQRT_PRICE
    ensures var end := RunHistory(grid, 1, NewWorld(grid), [AddUnit(), SwapOp(FeeOnly(limit))]);
            end.Some? && end.value.pool == FeePool(grid) && end.value.swapFee == NO_FEE
  {
    hide Apply, IsGrid, UnitPool, FeePool;
    var w := NewWorld(grid);
    var ops := [AddUnit(), SwapOp(FeeOnly(limit))];
    UnitAdded(grid);
    var w1 := Apply(grid, 1, w, ops[0]).value;
    FeeApplied(grid, limit, w1);
    assert ops[1..] == [ops[1]] && ops[1..][1..] == [];
    assert RunHistory(grid, 1, w1, ops[1..]) == Apply(grid, 1, w1, ops[1]);
  }

  // ------------------------------------------------------------ the collect

  lemma UnitOwed(grid: Grid)
    ensures Owed(FeePool(grid), UNIT_KEY, false) == W127
  {
    hide Pow2, Div, IsGrid;
    ZeroWords();
    Widths();
    Pow2Add(127, 128);
    assert W255 == W127 * Pow2W128();
    FloorDivAtLeast(W255, Pow2W128(), W127);
    FloorDivAtLeast(W255, Pow2W128(), W127 + 1);
  }

  /**
    From an empty pool a deposit and a swap succeed, and leave one position
    with liquidity, owed 2^127 of token1.  Collecting fails, and collecting
    again pays nothing.
  */
  lemma OwedButNotCollectable(grid: Grid, limit: Price)
    requires grid(0) < limit < MAX_SQRT_PRICE
    ensures IsEmptyWorld(grid, NewWorld(grid))
    ensures var end := RunHistory(grid, 1, NewWorld(grid), [AddUnit(), SwapOp(FeeOnly(limit))]);
            && end.Some? && IsRemoval(end.value.pool, Collect())
            && Owed(end.value.pool, UNIT_KEY, false) == W127
            && var (r, pool') := Modify(grid, end.value.pool, 1, Collect());
            && r == Err(AmountOverflow)
            && Modify(grid, pool', 1, Collect()).0 == Ok(ModifyResult(0, 0, 0, 0))
  {
    hide Apply, IsGrid, Owed, Modify, PoolInv, UnitPool, IsRemoval, IsEmptyWorld, FeesFit;
    NewWorldIsEmpty(grid);
    FeeHistory(grid, limit);
    EmptyWorldInv(grid, 1, NewWorld(grid));
    HistoryKeepsInv(grid, 1, NewWorld(grid), [AddUnit(), SwapOp(FeeOnly(limit))]);
    UnitOwed(grid);
    UnitCollects(grid);
    WideFeesAreLost(grid, FeePool(grid), 1, Collect());
  }

  lemma NewWorldIsEmpty(grid: Grid)
    ensures IsEmptyWorld(grid, NewWorld(grid))
  {
    hide IsGrid;
    GridMono(grid, 0, 1);
  }

  lemma FeeApplied(grid: Grid, limit: Price, w: World)
    requires grid(0) < limit < MAX_SQRT_PRICE
    requires w.pool == UnitPool(grid) && w.swapFee == NO_FEE
    ensures var next := Apply(grid, 1, w, SwapOp(FeeOnly(limit)));
            next.Some? && next.value.pool == FeePool(grid) && next.value.swapFee == NO_FEE
  {
    hide CallSwap, SwapReady, UnitPool, FeePool, IsGrid;
    FeeSwapped(grid, limit);
  }

  lemma UnitCollects(grid: Grid)
    requires Owed(FeePool(grid), UNIT_KEY, false) == W127
    ensures IsRemoval(FeePool(grid), Collect()) && !FeesFit(FeePool(grid), UNIT_KEY)
  {
    hide Owed, IsGrid;
    ZeroWords();
  }

  // ------------------------------------------------------- the second swap

  lemma UnitPoolIsBare(grid: Grid)
    ensures WithoutGrowth(FeePool(grid), false) == UnitPool(grid)
    ensures Growth(FeePool(grid).state, false) == W255 && W255 + W255 == W256
  {
    hide IsGrid, Pow2;
    Widths();
    DoublePow2(255);
  }

  lemma FeePoolReady(grid: Grid, limit: Price)
    requires grid(0) < limit < MAX_SQRT_PRICE
    ensures SwapReady(grid, FeePool(grid), FeeOnly(limit))
  {
    hide IsGrid;
    FeeReady(grid, limit);
  }

  /**
    Fee growth does not wrap: after the deposit and the swap the same swap
    again, which alone would succeed, fails on growth of 2^255 + 2^255.
  */
  lemma GrowthDoesNotWrap(grid: Grid, limit: Price)
    requires grid(0) < limit < MAX_SQRT_PRICE
    ensures IsEmptyWorld(grid, NewWorld(grid))
    ensures var end := RunHistory(grid, 1, NewWorld(grid), [AddUnit(), SwapOp(FeeOnly(limit))]);
            && end.Some? && SwapReady(grid, end.value.pool, FeeOnly(limit))
            && CallSwap(grid, 1, end.value.pool, end.value.swapFee, FeeOnly(limit), true).result == Err(FeeTooLarge)
  {
    hide Apply, IsGrid, UnitPool, FeePool, IsEmptyWorld, SwapReady, CallSwap, Growth, WithoutGrowth;
    NewWorldIsEmpty(grid);
    FeeHistory(grid, limit);
    UnitPoolIsBare(grid);
    FeePoolReady(grid, limit);
    FeeSwapped(grid, limit);
    SwapsUp(limit);
    SwapNeedsRoomForGrowth(grid, 1, FeePool(grid), NO_FEE, FeeOnly(limit));
  }

  lemma SwapsUp(limit: Price)
    ensures !FeeOnly(limit).zeroForOne
  {
  }
}
