/**
  Every error a swap can return on a reconciled pool, and when.  For ordinary
  requests no sum of the loop overflows and no crossing fails: what remains are
  refusals of the arguments, fee growth past 2^256, and amounts wider than the
  result's 128 bits.
*/
module SwapErrors {
  import opened Arith
  import opened Bits
  import opened Words
  import opened Wrappers
  import opened SqrtPriceMath
  import opened SwapMath
  import opened Fees
  import opened PoolTypes
  import opened Reconciliation
  import opened SwapSpec
  import opened Traversal
  import opened SwapCall
  import opened GrowthLimit
  import opened Histories

  // --------------------------------------------------------------- one step

  /** What one step can add to the calculated amount: an output, or an input with its fee. */
  lemma StepSmall(current: Price, target: Price, liquidity: U128, amount: I256, fee: Fee)
    requires liquidity > 0 && amount != 0
    ensures var r := ComputeSwapStep(current, target, liquidity, amount, fee);
            r.Ok? ==> if amount < 0 then r.value.amountOut <= Pow2(192)
                      else r.value.amountIn + r.value.fee <= Pow2(225)
  {
    hide *;
    StepExact(current, target, liquidity, amount, fee);
    var r := ComputeSwapStep(current, target, liquidity, amount, fee);
    if r.Ok? {
      if amount < 0 {
        OutputSmall(current, target, liquidity, Abs(amount), fee, r.value);
      } else {
        AbsOfNat(amount);
        InputSmall(current, target, liquidity, amount, fee, r.value);
      }
    }
  }

  lemma AbsOfNat(x: int)
    requires x >= 0
    ensures Abs(x) == x
  {
  }

  lemma OutputSmall(current: Price, target: Price, liquidity: U128, remaining: U256, fee: Fee, step: SwapStep)
    requires liquidity > 0 && ExactInAmounts(current, target, liquidity, remaining, fee, step)
    ensures step.amountOut <= Pow2(192)
  {
    hide Pow2, NetInput, MoveIn, FeeOnTop, NextFromInput, Amount0, Amount1;
    AmountsAreWords(current, step.next, liquidity);
  }

  lemma InputSmall(current: Price, target: Price, liquidity: U128, amount: U256, fee: Fee, step: SwapStep)
    requires liquidity > 0 && amount > 0 && ExactOutAmounts(current, target, liquidity, amount, fee, step)
    ensures step.amountIn + step.fee <= Pow2(225)
  {
    hide Pow2, MoveOut, NextFromOutput, CeilDiv, Amount0, Amount1;
    AmountsAreWords(current, step.next, liquidity);
    MulNonNegative(step.amountIn, fee);
    MulMono(1, MAX_FEE - fee, step.amountIn * fee);
    CeilAtMost(step.amountIn * fee, MAX_FEE - fee, step.amountIn * fee);
    FeeBelow(step.amountIn, fee);
  }

  lemma FeeBelow(amountIn: nat, fee: Fee)
    requires amountIn <= Pow2(192)
    ensures amountIn + amountIn * fee <= Pow2(225)
  {
    hide *;
    Pow2Of32();
    Widths();
    MaxFee();
    Pow2Add(192, 32);
    Pow2Monotone(192, 224);
    DoublePow2(224);
    MulMono2(amountIn, Pow2(192), fee, W32);
  }

  // --------------------------------------------------------- one iteration

  /** The protocol's part of a fee is covered by the fee, as it is whenever the LP fee is resolved. */
  predicate FeesOrdered(env: Env) {
    env.protocolPips <= env.fee && env.protocolPips <= MAX_PROTOCOL_FEE
  }

  /** Amounts so far, with room for every iteration that can still come. */
  ghost predicate Roomy(env: Env, s: Loop)
    requires LoopOk(env, s)
  {
    && Abs(s.calculated) + Pow2(225) * Distance(env, s) <= Pow2(246)
    && (if env.specified < 0 then s.protocol <= s.remaining - env.specified && 0 - Pow2(246) < env.specified
        else s.protocol + Pow2(225) * Distance(env, s) <= Pow2(246))
  }

  lemma WordRoom()
    ensures Pow2(192) <= Pow2(225) && 2 * Pow2(246) <= W255 && 2 * W255 == W256
    ensures MAX_PROTOCOL_FEE * Pow2(246) < W256 && 1 <= Pow2(225) <= Pow2(246)
  {
    hide Pow2;
    Pow2Monotone(192, 225);
    Pow2Monotone(225, 246);
    DoublePow2(246);
    Pow2Monotone(247, 255);
    DoublePow2(255);
    TenBits();
    Pow2Add(10, 246);
    MulStrict(MAX_PROTOCOL_FEE, Pow2(10), Pow2(246));
    Widths();
  }

  lemma TenBits()
    ensures Pow2(10) == 1024
  {
    assert Pow2(2) == 4;
    assert Pow2(4) == 16;
    assert Pow2(6) == 64;
    assert Pow2(8) == 256;
  }

  /** Charging a step fails only for fee growth. */
  lemma ChargeFailsOnGrowth(env: Env, s: Loop, step: SwapStep)
    requires FeesOrdered(env) && env.specified != 0 && RemainingOk(env.specified, s.remaining)
    requires Abs(s.calculated) + Pow2(225) <= Pow2(246)
    requires step.amountIn * env.fee <= step.fee * (MAX_FEE - env.fee)
    requires if env.specified < 0
             then step.amountIn + step.fee <= 0 - s.remaining && step.amountOut <= Pow2(192)
                  && s.protocol <= s.remaining - env.specified && 0 - Pow2(246) < env.specified
             else step.amountOut <= s.remaining && step.amountIn + step.fee <= Pow2(225)
                  && s.protocol + Pow2(225) <= Pow2(246)
    ensures var c := Charge(env, s, step);
            && (c.Err? ==> c.error == FeeTooLarge)
            && (c.Ok? ==>
                  && Abs(c.value.calculated) <= Abs(s.calculated) + Pow2(225)
                  && c.value.protocol <= s.protocol + step.fee)
  {
    hide Pow2, Grow, ProtocolSplit;
    WordRoom();
    ProtocolSplitSound(step.amountIn, step.fee, env.fee, env.protocolPips);
    var paid := step.amountIn + step.fee;
    assert paid <= Pow2(246);
    MulMono2(paid, Pow2(246), env.protocolPips, MAX_PROTOCOL_FEE);
    assert Pow2(246) * MAX_PROTOCOL_FEE == MAX_PROTOCOL_FEE * Pow2(246);
    GrowErrors(s.growth, step, env, s.liquidity);
  }

  lemma GrowErrors(growth: U256, step: SwapStep, env: Env, liquidity: U128)
    ensures forall fee: nat :: Grow(growth, fee, liquidity).Err? ==> Grow(growth, fee, liquidity).error == FeeTooLarge
  {
  }

  /** An exact output at a 100% fee, which no step can serve. */
  predicate Unservable(env: Env) {
    env.specified > 0 && env.fee == MAX_FEE
  }

  lemma AdvanceErrors(env: Env, s: Loop, target: Target, step: SwapStep, charged: Loop)
    requires target.initialized ==> target.tick in s.ticks
    ensures var r := Advance(env, s, target, step, charged);
            && (r.Failed? ==> r.error == LiquidityUnderflow)
            && (r.Reached? ==> r.loop.calculated == charged.calculated && r.loop.protocol == charged.protocol
                               && r.loop.remaining == charged.remaining)
  {
    hide TickAt, Cross;
  }

  /** An iteration fails on an unservable request, and otherwise only for fee growth; it leaves room for the next. */
  lemma StepErrors(env: Env, s: Loop, m: Positions)
    requires LoopOk(env, s) && !Done(env, s) && LoopReconciled(m, env.spacing, s)
    requires FeesOrdered(env) && Roomy(env, s)
    ensures s.liquidity > 0
    ensures match StepOnce(env, s)
            case Failed(e, _) => e == if Unservable(env) then MaxFeeExactOut else FeeTooLarge
            case Reached(s') => !Unservable(env) && LoopOk(env, s') && Roomy(env, s')
  {
    hide NextTarget, NextInitialized, IsGrid, Bracket, LoopReconciled, ComputeSwapStep, Charge, Advance, Pow2,
         CoversAmount0, CoversAmount1, WithinAmount0, WithinAmount1;
    NotDone(env, s);
    TargetSide(env, s);
    var target := NextTarget(env, s);
    var price := PriceTarget(env.zeroForOne, env.grid(target.tick), env.limit);
    StepTotalAndSound(s.price, price, s.liquidity, s.remaining, env.fee);
    StepSmall(s.price, price, s.liquidity, s.remaining, env.fee);
    CrossingNeverFails(env, s, m);
    StepProgress(env, s);
    var computed := ComputeSwapStep(s.price, price, s.liquidity, s.remaining, env.fee);
    if computed.Ok? {
      var step := computed.value;
      RoomForOne(Distance(env, s));
      ChargeFailsOnGrowth(env, s, step);
      var charged := Charge(env, s, step);
      if charged.Ok? {
        ChargeEffect(env, s, step);
        AdvanceErrors(env, s, target, step, charged.value);
        if StepOnce(env, s).Reached? {
          RoomLeft(Distance(env, s), Distance(env, StepOnce(env, s).loop));
        }
      }
    }
  }

  lemma RoomForOne(d: nat)
    ensures d >= 1 ==> Pow2(225) * d >= Pow2(225)
  {
    hide Pow2;
    if d >= 1 {
      MulMono(1, d, Pow2(225));
    }
  }

  lemma RoomLeft(d: nat, d': nat)
    requires d' < d
    ensures Pow2(225) * d' + Pow2(225) <= Pow2(225) * d
  {
    hide Pow2;
    MulMono(d' + 1, d, Pow2(225));
    assert Pow2(225) * (d' + 1) == Pow2(225) * d' + Pow2(225);
  }

  // ----------------------------------------------------------------- the run

  lemma {:induction false} RunErrors(env: Env, s: Loop, m: Positions)
    requires LoopOk(env, s) && LoopReconciled(m, env.spacing, s) && FeesOrdered(env) && Roomy(env, s)
    ensures match Run(env, s)
            case Failed(e, _) => e == if Unservable(env) then MaxFeeExactOut else FeeTooLarge
            case Reached(_) => Unservable(env) ==> Done(env, s)
    decreases Distance(env, s)
  {
    hide StepOnce, LoopReconciled, Bracket, Roomy, FeesOrdered, Done;
    if !Done(env, s) {
      StepErrors(env, s, m);
      StepProgress(env, s);
      if StepOnce(env, s).Reached? {
        StepReconciled(env, s, m);
        RunErrors(env, StepOnce(env, s).loop, m);
      }
    }
  }

  /** What a step can fail with when nothing is known about amounts and fees. */
  lemma StepErrorsAny(env: Env, s: Loop, m: Positions)
    requires LoopOk(env, s) && !Done(env, s) && LoopReconciled(m, env.spacing, s)
    ensures s.liquidity > 0
    ensures match StepOnce(env, s)
            case Failed(e, _) =>
              if Unservable(env) then e == MaxFeeExactOut
              else e == FeeTooLarge || e == SignedOverflow || e == AmountOverflow
            case Reached(_) => !Unservable(env)
  {
    hide NextTarget, NextInitialized, IsGrid, Bracket, LoopReconciled, ComputeSwapStep, Charge, Advance, Pow2,
         StepSound;
    NotDone(env, s);
    TargetSide(env, s);
    var target := NextTarget(env, s);
    var price := PriceTarget(env.zeroForOne, env.grid(target.tick), env.limit);
    StepTotalAndSound(s.price, price, s.liquidity, s.remaining, env.fee);
    CrossingNeverFails(env, s, m);
    var computed := ComputeSwapStep(s.price, price, s.liquidity, s.remaining, env.fee);
    if computed.Ok? {
      ChargeErrorSet(env, s, computed.value);
      var charged := Charge(env, s, computed.value);
      if charged.Ok? {
        AdvanceErrors(env, s, target, computed.value, charged.value);
      }
    }
  }

  lemma ChargeErrorSet(env: Env, s: Loop, step: SwapStep)
    ensures Charge(env, s, step).Err? ==>
              var e := Charge(env, s, step).error;
              e == FeeTooLarge || e == SignedOverflow || e == AmountOverflow
  {
    hide Div, Pow2;
  }

  lemma {:induction false} RunErrorsAny(env: Env, s: Loop, m: Positions)
    requires LoopOk(env, s) && LoopReconciled(m, env.spacing, s)
    ensures match Run(env, s)
            case Failed(e, _) =>
              if Unservable(env) then e == MaxFeeExactOut
              else e == FeeTooLarge || e == SignedOverflow || e == AmountOverflow
            case Reached(_) => Unservable(env) ==> Done(env, s)
    decreases Distance(env, s)
  {
    hide StepOnce, LoopReconciled, Bracket, Done;
    if !Done(env, s) {
      StepErrorsAny(env, s, m);
      StepProgress(env, s);
      if StepOnce(env, s).Reached? {
        StepReconciled(env, s, m);
        RunErrorsAny(env, StepOnce(env, s).loop, m);
      }
    }
  }

  // ---------------------------------------------------------------- the call

  /** A loop starts with room for every tick it could visit. */
  lemma RoomyAtStart(env: Env, s: Loop)
    requires LoopOk(env, s) && 0 - Pow2(246) < env.specified && s.remaining == env.specified
    requires s.calculated == 0 && s.protocol == 0
    ensures Roomy(env, s)
  {
    hide Pow2, IsGrid;
    BracketRange(env.grid, s.tick, s.price);
    TwentyOneBits();
    Pow2Add(21, 225);
    MulMono(Distance(env, s), Pow2(21), Pow2(225));
  }

  lemma TwentyOneBits()
    ensures Pow2(21) == 2097152
  {
    TenBits();
    assert Pow2(20) == Pow2(10) * Pow2(10) by {
      Pow2Add(10, 10);
    }
    assert Pow2(21) == 2 * Pow2(20);
  }

  /**
    The result of a swap on a reconciled pool, error by error, against a run
    from no growth in the input token.  A request that is not refused succeeds
    iff that run ends, its growth and the pool's stay below 2^256 together, and
    the amounts fit in 128 bits.  A run that does not end fails for growth that
    exceeds 2^256 on its own; only an input of 2^246 or more, or a protocol fee
    without a resolved LP fee, can also overflow a sum.
  */
  lemma SwapOutcome(grid: Grid, spacing: Spacing, pool: PoolValue, swapFee: SwapFee, params: SwapParams)
    requires PoolInv(grid, spacing, pool) && SwapReady(grid, pool, params) && swapFee.Valid()
    ensures var result := CallSwap(grid, spacing, pool, swapFee, params, true).result;
            if params.lpFeeOverride.Some? && params.lpFeeOverride.value > MAX_FEE then result == Err(InvalidLpFee)
            else if params.specified == 0 then result.Ok?
            else if params.zeroForOne && params.limit >= pool.state.price then
              result == Err(PriceLimitAlreadyExceeded)
            else if !params.zeroForOne && params.limit <= pool.state.price then
              result == Err(PriceLimitAlreadyExceeded)
            else
              && CallFee(swapFee, params).Ok?
              && var fee := CallFee(swapFee, params).value;
              var env := StartEnv(grid, spacing, pool.state, fee, params, true);
              var bare := StartLoop(WithoutGrowth(pool, params.zeroForOne), params);
              && LoopOk(env, bare)
              && (FeesOrdered(env) <==> fee.lpFee.Some? || fee.protocolFee.Pips(params.zeroForOne) == 0)
              && if Unservable(env) && pool.state.liquidity > 0 then result == Err(MaxFeeExactOut)
                 else
                   match Run(env, bare)
                   case Reached(f) =>
                     if f.growth + Growth(pool.state, params.zeroForOne) >= W256 then result == Err(FeeTooLarge)
                     else if 0 - W127 <= params.specified - f.remaining < W127 && 0 - W127 <= f.calculated < W127 then
                       result.Ok?
                     else result == Err(I128Overflow)
                   case Failed(_, _) =>
                     && result.Err?
                     && (result.error == FeeTooLarge
                         || ((params.specified <= 0 - Pow2(246) || !FeesOrdered(env))
                             && (result.error == SignedOverflow || result.error == AmountOverflow)))
  {
    hide Run, PoolInv, LoopReconciled, SwapReady, LoopOk, Bracket, CallFee, StartEnv, StartLoop, LimitExceeded,
         FitsI128, FinalDeltas, Done, FeesOrdered, Pow2, WithoutGrowth, Growth, Shifted;
    CallFeeRefused(swapFee, params);
    WrongSide(params, pool.state.price);
    var fee := CallFee(swapFee, params);
    if fee.Ok? && params.specified != 0 && !LimitExceeded(params, pool.state.price) {
      var env := StartEnv(grid, spacing, pool.state, fee.value, params, true);
      var s := StartLoop(pool, params);
      var bare := StartLoop(WithoutGrowth(pool, params.zeroForOne), params);
      StartOk(grid, spacing, pool, fee.value, params, true);
      StartEnvIs(grid, spacing, pool.state, fee.value, params);
      LoopAtStart(grid, spacing, pool, fee.value, params, true);
      StartValues(grid, spacing, pool, fee.value, params);
      StartShifts(grid, spacing, pool, fee.value, params);
      BareReady(grid, pool, params);
      StartOk(grid, spacing, WithoutGrowth(pool, params.zeroForOne), fee.value, params, true);
      ResolvedFeesOrdered(grid, spacing, pool.state, fee.value, params);
      DoneAtOnce(env, s);
      RunErrorsAny(env, s, pool.positions);
      if FeesOrdered(env) && 0 - Pow2(246) < params.specified {
        RoomyAtStart(env, s);
        RunErrors(env, s, pool.positions);
      }
      RunShifts(env, bare, s, Growth(pool.state, params.zeroForOne));
      if Run(env, bare).Reached? && Run(env, s).Reached? {
        SameDeltas(env, Run(env, bare).loop, Run(env, s).loop, Growth(pool.state, params.zeroForOne));
        DeltasFit(env, Run(env, bare).loop);
      }
    }
  }

  lemma WrongSide(params: SwapParams, price: Price)
    ensures LimitExceeded(params, price)
            <==> if params.zeroForOne then params.limit >= price else params.limit <= price
  {
  }

  lemma DeltasFit(env: Env, f: Loop)
    ensures var (delta0, delta1) := FinalDeltas(env, f);
            (FitsI128(delta0) && FitsI128(delta1)
             <==> 0 - W127 <= env.specified - f.remaining < W127 && 0 - W127 <= f.calculated < W127)
  {
  }

  lemma SameDeltas(env: Env, a: Loop, b: Loop, x: nat)
    requires Shifted(a, b, x)
    ensures FinalDeltas(env, a) == FinalDeltas(env, b)
  {
    hide SameLiquidity;
  }

  /** The fees are ordered exactly with a resolved LP fee, or without a protocol fee. */
  lemma ResolvedFeesOrdered(grid: Grid, spacing: Spacing, state: PoolState, swapFee: SwapFee, params: SwapParams)
    requires swapFee.Valid()
    ensures FeesOrdered(StartEnv(grid, spacing, state, swapFee, params, true))
            <==> swapFee.lpFee.Some? || swapFee.protocolFee.Pips(params.zeroForOne) == 0
  {
    if swapFee.lpFee.Some? {
      EffectiveFeeCoversProtocol(swapFee, params.zeroForOne);
    }
  }

  lemma DoneAtOnce(env: Env, s: Loop)
    requires LoopOk(env, s)
    ensures Done(env, s) ==> Run(env, s) == Reached(s)
  {
  }

  lemma CallFeeRefused(swapFee: SwapFee, params: SwapParams)
    requires swapFee.Valid()
    ensures CallFee(swapFee, params).Err? <==> params.lpFeeOverride.Some? && params.lpFeeOverride.value > MAX_FEE
    ensures CallFee(swapFee, params).Err? ==> CallFee(swapFee, params).error == InvalidLpFee
    ensures CallFee(swapFee, params).Ok? ==> CallFee(swapFee, params).value.Valid()
  {
    if params.lpFeeOverride.Some? {
      SettersKeepCaches(swapFee, params.lpFeeOverride.value, swapFee.protocolFee);
    }
  }

  lemma StartValues(grid: Grid, spacing: Spacing, pool: PoolValue, swapFee: SwapFee, params: SwapParams)
    requires SwapReady(grid, pool, params) && params.specified != 0 && !LimitExceeded(params, pool.state.price)
    ensures var env := StartEnv(grid, spacing, pool.state, swapFee, params, true);
            var s := StartLoop(pool, params);
            && env.specified == params.specified && s.remaining == params.specified
            && s.calculated == 0 && s.protocol == 0 && s.liquidity == pool.state.liquidity
            && (Done(env, s) <==> pool.state.liquidity == 0)
  {
    hide Growth;
  }

  // ------------------------------------------------------------ failed swaps

  lemma StepFailedTicks(env: Env, s: Loop)
    requires LoopOk(env, s) && !Done(env, s)
    ensures s.liquidity > 0
    ensures StepOnce(env, s).Failed? ==> SameLiquidity(s.ticks, StepOnce(env, s).ticks)
  {
    hide NextTarget, NextInitialized, IsGrid, Bracket, ComputeSwapStep, Charge, TickAt, Cross;
    NotDone(env, s);
    TargetSide(env, s);
    var target := NextTarget(env, s);
    if target.initialized {
      forall growth: U256
        ensures SameLiquidity(s.ticks, Cross(env, s.ticks, target.tick, growth))
      {
        CrossKeepsLiquidity(env, s.ticks, target.tick, growth);
      }
    }
  }

  /** Whatever a failing run has crossed by then, only outside growth has changed. */
  lemma {:induction false} RunFailedTicks(env: Env, s: Loop)
    requires LoopOk(env, s)
    ensures Run(env, s).Failed? ==> SameLiquidity(s.ticks, Run(env, s).ticks)
    decreases Distance(env, s)
  {
    hide StepOnce, Bracket;
    if !Done(env, s) {
      StepFailedTicks(env, s);
      StepProgress(env, s);
      if StepOnce(env, s).Reached? {
        StepCrosses(env, s);
        RunFailedTicks(env, StepOnce(env, s).loop);
      }
    }
  }

  /** A failed swap leaves a reconciled pool reconciled: price, tick, liquidity and positions are as they were. */
  lemma FailedSwapKeepsInv(grid: Grid, spacing: Spacing, pool: PoolValue, swapFee: SwapFee, params: SwapParams)
    requires PoolInv(grid, spacing, pool) && SwapReady(grid, pool, params)
    ensures var c := CallSwap(grid, spacing, pool, swapFee, params, true);
            c.result.Err? ==>
              && PoolInv(grid, spacing, c.pool)
              && c.pool.state == pool.state && c.pool.positions == pool.positions
              && SameLiquidity(pool.ticks, c.pool.ticks)
  {
    hide Run, PoolInv, SwapReady, LoopOk, CallFee, StartEnv, LimitExceeded, FinalDeltas, FitsI128, SameLiquidity;
    var fee := CallFee(swapFee, params);
    SameTicks(pool.ticks);
    if fee.Ok? && params.specified != 0 && !LimitExceeded(params, pool.state.price) {
      var env := StartEnv(grid, spacing, pool.state, fee.value, params, true);
      var s := StartLoop(pool, params);
      StartOk(grid, spacing, pool, fee.value, params, true);
      RunFailedTicks(env, s);
      if Run(env, s).Reached? {
        var crossed := RunTraverses(env, s);
      }
      var c := CallSwap(grid, spacing, pool, swapFee, params, true);
      if c.result.Err? {
        TicksOnly(grid, spacing, pool, c.pool);
      }
    }
  }

  lemma SameTicks(ticks: Ticks)
    ensures SameLiquidity(ticks, ticks)
  {
  }

  lemma TicksOnly(grid: Grid, spacing: Spacing, pool: PoolValue, pool': PoolValue)
    requires PoolInv(grid, spacing, pool) && pool' == pool.(ticks := pool'.ticks)
    requires SameLiquidity(pool.ticks, pool'.ticks)
    ensures PoolInv(grid, spacing, pool')
  {
    hide Reconciled, Capped, KeysOk, ActiveAt, Bracket, SameLiquidity;
    SameLiquidityReconciled(pool.ticks, pool'.ticks, pool.positions, spacing);
  }
}
