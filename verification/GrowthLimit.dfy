/**
  What the checked addition of fee growth does to a swap.  The growth a pool
  starts from plays no part in a run except in that check, so a run succeeds
  exactly when it does from no growth at all and the two growths add up to less
  than 2^256.
*/
module GrowthLimit {
  import opened Words
  import opened Wrappers
  import opened SwapMath
  import opened Fees
  import opened PoolTypes
  import opened SwapSpec
  import opened Traversal
  import opened FeeGrowth
  import opened SwapCall

  /** The same loop with x more growth of the input token; outside growth may differ. */
  ghost predicate Shifted(a: Loop, b: Loop, x: nat) {
    && b.growth == a.growth + x
    && b.price == a.price && b.tick == a.tick && b.liquidity == a.liquidity
    && b.remaining == a.remaining && b.calculated == a.calculated && b.protocol == a.protocol
    && b.totals == a.totals
    && SameLiquidity(a.ticks, b.ticks)
  }

  // ---------------------------------------------------------- one iteration

  lemma SettleShifts(env: Env, a: Loop, b: Loop, x: nat, step: SwapStep)
    requires Shifted(a, b, x)
    ensures Settle(env, a, step) == Settle(env, b, step)
  {
    hide SameLiquidity;
  }

  /** The only check that tells the loops apart is the one on the sum of growths. */
  lemma ChargeShifts(env: Env, a: Loop, b: Loop, x: nat, step: SwapStep)
    requires Shifted(a, b, x)
    ensures var (c, d) := (Charge(env, a, step), Charge(env, b, step));
            && (c.Err? ==> d.Err?)
            && (c.Ok? ==> c.value.ticks == a.ticks)
            && (c.Ok? && c.value.growth + x < W256 ==>
                  d.Ok? && Shifted(c.value, d.value, x) && d.value.ticks == b.ticks)
            && (c.Ok? && c.value.growth + x >= W256 ==> d == Err(FeeTooLarge))
  {
    hide Settle, ProtocolSplit, SameLiquidity;
    SettleShifts(env, a, b, x, step);
    GrowShifts(a.growth, b.growth, x, a.liquidity);
  }

  lemma GrowShifts(growth: U256, growth': U256, x: nat, liquidity: nat)
    requires growth' == growth + x
    ensures forall fee: nat ::
              var (g, g') := (Grow(growth, fee, liquidity), Grow(growth', fee, liquidity));
              && (g.Err? ==> g' == Err(FeeTooLarge))
              && (g.Ok? ==> g' == if g.value + x < W256 then Ok(g.value + x) else Err(FeeTooLarge))
  {
  }

  lemma AdvanceShifts(env: Env, a: Loop, b: Loop, x: nat, target: Target, step: SwapStep, c: Loop, d: Loop)
    requires Shifted(a, b, x) && Shifted(c, d, x)
    requires target.initialized ==> target.tick in a.ticks && target.tick in b.ticks
    ensures match (Advance(env, a, target, step, c), Advance(env, b, target, step, d))
            case (Reached(a'), Reached(b')) => Shifted(a', b', x) && a'.growth == c.growth
            case (Failed(_, _), Failed(_, _)) => true
            case _ => false
  {
    hide TickAt, Cross, IsGrid;
    if target.initialized {
      CrossesSame(env, env, a.ticks, b.ticks, target.tick, c.growth);
      CrossesShifted(env, a.ticks, b.ticks, target.tick, c.growth, d.growth);
    }
  }

  lemma CrossesShifted(env: Env, a: Ticks, b: Ticks, t: int, growth: U256, growth': U256)
    requires SameLiquidity(a, b) && t in a && t in b
    ensures SameLiquidity(Cross(env, a, t, growth), Cross(env, b, t, growth'))
  {
  }

  lemma StepShifts(env: Env, a: Loop, b: Loop, x: nat)
    requires Shifted(a, b, x) && a.liquidity > 0
    ensures match StepOnce(env, a)
            case Failed(_, _) => StepOnce(env, b).Failed?
            case Reached(a') =>
              if a'.growth + x < W256
              then StepOnce(env, b).Reached? && Shifted(a', StepOnce(env, b).loop, x)
              else StepOnce(env, b).Failed? && StepOnce(env, b).error == FeeTooLarge
  {
    hide NextInitialized, WordBoundary, ComputeSwapStep, Charge, Advance, Shifted, IsGrid, PriceTarget, SameLiquidity;
    ShiftedParts(a, b, x);
    TwinNext(a.ticks, b.ticks, a.tick, env.zeroForOne);
    NextInitializedIsNearest(a.ticks, a.tick, env.zeroForOne);
    NextInitializedIsNearest(b.ticks, b.tick, env.zeroForOne);
    var target := NextTarget(env, a);
    assert target == NextTarget(env, b);
    var price := PriceTarget(env.zeroForOne, env.grid(target.tick), env.limit);
    var step := ComputeSwapStep(a.price, price, a.liquidity, a.remaining, env.fee);
    if step.Ok? {
      ChargeShifts(env, a, b, x, step.value);
      var (c, d) := (Charge(env, a, step.value), Charge(env, b, step.value));
      if c.Ok? {
        AdvanceGrowth(env, a, target, step.value, c.value);
        if c.value.growth + x < W256 {
          AdvanceShifts(env, a, b, x, target, step.value, c.value, d.value);
        }
      }
    }
  }

  lemma ShiftedParts(a: Loop, b: Loop, x: nat)
    requires Shifted(a, b, x)
    ensures b.price == a.price && b.tick == a.tick && b.liquidity == a.liquidity && b.remaining == a.remaining
    ensures b.growth == a.growth + x && SameLiquidity(a.ticks, b.ticks)
  {
    hide SameLiquidity;
  }

  lemma AdvanceGrowth(env: Env, s: Loop, target: Target, step: SwapStep, charged: Loop)
    requires target.initialized ==> target.tick in s.ticks
    ensures var r := Advance(env, s, target, step, charged);
            r.Reached? ==> r.loop.growth == charged.growth
  {
    hide TickAt, Cross;
  }

  // ---------------------------------------------------------------- the run

  /** A run from x more growth ends exactly when it does without, and the growth it then has leaves room for x. */
  lemma {:induction false} RunShifts(env: Env, a: Loop, b: Loop, x: nat)
    requires Shifted(a, b, x) && LoopOk(env, a) && LoopOk(env, b)
    ensures match Run(env, a)
            case Failed(_, _) => Run(env, b).Failed?
            case Reached(f) =>
              if f.growth + x < W256 then Run(env, b).Reached? && Shifted(f, Run(env, b).loop, x)
              else Run(env, b).Failed? && Run(env, b).error == FeeTooLarge
    decreases Distance(env, a)
  {
    hide StepOnce, Bracket, SameLiquidity;
    if !Done(env, a) {
      StepProgress(env, a);
      StepProgress(env, b);
      StepShifts(env, a, b, x);
      if StepOnce(env, a).Reached? {
        var a' := StepOnce(env, a).loop;
        if a'.growth + x < W256 {
          RunShifts(env, a', StepOnce(env, b).loop, x);
        } else {
          RunGrows(env, a');
        }
      }
    }
  }

  /** Growth never falls. */
  lemma {:induction false} RunGrows(env: Env, s: Loop)
    requires LoopOk(env, s)
    ensures Run(env, s).Reached? ==> s.growth <= Run(env, s).loop.growth
    decreases Distance(env, s)
  {
    hide StepOnce, Bracket;
    if !Done(env, s) {
      StepProgress(env, s);
      if StepOnce(env, s).Reached? {
        StepGrowth(env, s);
        RunGrows(env, StepOnce(env, s).loop);
      }
    }
  }

  // --------------------------------------------------------------- the call

  /** The same pool before any fee was charged in the input token. */
  function WithoutGrowth(pool: PoolValue, zeroForOne: bool): PoolValue {
    NoGrowthFits();
    pool.(state := if zeroForOne then pool.state.(growth0 := 0) else pool.state.(growth1 := 0))
  }

  lemma NoGrowthFits()
    ensures 0 < W256
  {
  }

  lemma StartShifts(grid: Grid, spacing: Spacing, pool: PoolValue, swapFee: SwapFee, params: SwapParams)
    ensures var bare := WithoutGrowth(pool, params.zeroForOne);
            && StartEnv(grid, spacing, bare.state, swapFee, params, true)
               == StartEnv(grid, spacing, pool.state, swapFee, params, true)
            && StartLoop(bare, params).growth == 0
            && Shifted(StartLoop(bare, params), StartLoop(pool, params), Growth(pool.state, params.zeroForOne))
            && bare.state.price == pool.state.price && bare.state.tick == pool.state.tick
            && bare.state.liquidity == pool.state.liquidity && bare.ticks == pool.ticks
            && Growth(bare.state, params.zeroForOne) == 0
  {
  }

  lemma BareReady(grid: Grid, pool: PoolValue, params: SwapParams)
    ensures SwapReady(grid, WithoutGrowth(pool, params.zeroForOne), params) <==> SwapReady(grid, pool, params)
  {
    hide Bracket, KeysInRange;
  }

  /** Shifted ends convert to the same result; the committed growth differs by the shift. */
  lemma FinishShifts(env: Env, bare: PoolValue, pool: PoolValue, a: Loop, b: Loop, x: nat)
    requires Shifted(a, b, x) && env.mutate
    ensures var (c, d) := (Finish(env, bare, a), Finish(env, pool, b));
            && c.result == d.result
            && (c.result.Ok? ==>
                  Growth(c.pool.state, env.zeroForOne) == a.growth
                  && Growth(d.pool.state, env.zeroForOne) == a.growth + x)
  {
    hide SameLiquidity;
  }

  /**
    The growth check of a swap, from what a caller can work out before: let the
    swap run on the same pool without any growth in the input token.  The swap
    succeeds iff that one does and the growth it leaves, added to the pool's,
    stays below 2^256; then the results are the same, and otherwise a growth
    that does not fit is reported as a fee that is too large.
  */
  lemma SwapNeedsRoomForGrowth(grid: Grid, spacing: Spacing, pool: PoolValue, swapFee: SwapFee, params: SwapParams)
    requires SwapReady(grid, pool, params) && SwapReady(grid, WithoutGrowth(pool, params.zeroForOne), params)
    ensures var c := CallSwap(grid, spacing, pool, swapFee, params, true);
            var bare := CallSwap(grid, spacing, WithoutGrowth(pool, params.zeroForOne), swapFee, params, true);
            var total := Growth(bare.pool.state, params.zeroForOne) + Growth(pool.state, params.zeroForOne);
            && (c.result.Ok? <==> bare.result.Ok? && total < W256)
            && (c.result.Ok? ==> c.result == bare.result && Growth(c.pool.state, params.zeroForOne) == total)
            && (bare.result.Ok? && total >= W256 ==> c.result == Err(FeeTooLarge))
  {
    hide Run, CallFee, StartEnv, StartLoop, SwapReady, LoopOk, Shifted, Finish, LimitExceeded, Growth, WithoutGrowth;
    var bare := WithoutGrowth(pool, params.zeroForOne);
    var fee := CallFee(swapFee, params);
    if fee.Ok? {
      StartShifts(grid, spacing, pool, fee.value, params);
      if params.specified != 0 && !LimitExceeded(params, pool.state.price) {
        StartOk(grid, spacing, pool, fee.value, params, true);
        StartOk(grid, spacing, bare, fee.value, params, true);
        var env := StartEnv(grid, spacing, pool.state, fee.value, params, true);
        var (a, b) := (StartLoop(bare, params), StartLoop(pool, params));
        var x := Growth(pool.state, params.zeroForOne);
        RunShifts(env, a, b, x);
        StartMutates(grid, spacing, pool, fee.value, params);
        if Run(env, a).Reached? {
          FinishGrowth(env, bare, Run(env, a).loop);
          if Run(env, a).loop.growth + x < W256 {
            FinishShifts(env, bare, pool, Run(env, a).loop, Run(env, b).loop, x);
          }
        }
      }
    }
  }

  lemma StartMutates(grid: Grid, spacing: Spacing, pool: PoolValue, swapFee: SwapFee, params: SwapParams)
    ensures var env := StartEnv(grid, spacing, pool.state, swapFee, params, true);
            env.mutate && env.zeroForOne == params.zeroForOne
  {
    hide Growth, IsGrid;
  }

  lemma FinishGrowth(env: Env, pool: PoolValue, f: Loop)
    requires env.mutate
    ensures var c := Finish(env, pool, f);
            c.result.Ok? ==> Growth(c.pool.state, env.zeroForOne) == f.growth
  {
  }
}
