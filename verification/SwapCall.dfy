/**
  `swap` and `quote_swap`: the checks before the loop, the loop, and the result
  after it; what a swap charges; and that a quote is the swap it predicts.
*/
module SwapCall {
  import opened Words
  import opened Wrappers
  import opened SqrtPriceMath
  import opened SwapMath
  import opened Fees
  import opened PoolTypes
  import opened SwapSpec
  import opened Traversal

  datatype SwapParams = SwapParams(zeroForOne: bool, specified: I256, limit: Price, lpFeeOverride: Option<nat>)

  datatype SwapResult = SwapResult(delta0: int, delta1: int, amountToProtocol: nat, fee: Fee,
                                   price: Price, tick: int, liquidity: nat)

  /** A call's result, the pool afterwards, and the totals of the run. */
  datatype Called = Called(result: Result<SwapResult>, pool: PoolValue, totals: Totals)

  const NO_TOTALS: Totals := Totals(0, 0, 0, 0, [])

  /** The fee configuration of one call: the stored one, or the stored one with its LP fee replaced. */
  function CallFee(swapFee: SwapFee, params: SwapParams): Result<SwapFee> {
    if params.lpFeeOverride.None? then Ok(swapFee) else swapFee.SetLpFee(params.lpFeeOverride.value)
  }

  function StartEnv(grid: Grid, spacing: Spacing, state: PoolState, swapFee: SwapFee, params: SwapParams,
                    mutate: bool): Env {
    Env(grid, spacing, params.zeroForOne, params.specified, params.limit, swapFee.EffectiveFee(params.zeroForOne),
        swapFee.protocolFee.Pips(params.zeroForOne), Growth(state, !params.zeroForOne), mutate)
  }

  function StartLoop(pool: PoolValue, params: SwapParams): Loop {
    ZeroIsI256();
    Loop(pool.state.price, pool.state.tick, pool.state.liquidity, params.specified, 0,
         Growth(pool.state, params.zeroForOne), 0, pool.ticks, NO_TOTALS)
  }

  lemma ZeroIsI256()
    ensures 0 - W255 <= 0 < W255 && 0 < W256
  {
  }

  /** The limit is on the wrong side of the current price. */
  predicate LimitExceeded(params: SwapParams, price: Price) {
    if params.zeroForOne then params.limit >= price else params.limit <= price
  }

  /** What the caller owes: the price is bracketed by its tick, and the limit is strictly inside the price range. */
  ghost predicate SwapReady(grid: Grid, pool: PoolValue, params: SwapParams) {
    && Bracket(grid, pool.state.tick, pool.state.price)
    && KeysInRange(pool.ticks)
    && MIN_SQRT_PRICE < params.limit < MAX_SQRT_PRICE
  }

  lemma StartOk(grid: Grid, spacing: Spacing, pool: PoolValue, swapFee: SwapFee, params: SwapParams, mutate: bool)
    requires SwapReady(grid, pool, params) && params.specified != 0 && !LimitExceeded(params, pool.state.price)
    ensures LoopOk(StartEnv(grid, spacing, pool.state, swapFee, params, mutate), StartLoop(pool, params))
  {
  }

  predicate FitsI128(x: int) {
    0 - W127 <= x < W127
  }

  /** Token amounts from the caller's perspective at the end of a run. */
  function FinalDeltas(env: Env, f: Loop): (int, int) {
    var specified := env.specified - f.remaining;
    if env.zeroForOne == (env.specified < 0) then (specified, f.calculated) else (f.calculated, specified)
  }

  /** After the loop: convert the amounts, commit the state. */
  function Finish(env: Env, pool: PoolValue, f: Loop): Called {
    var (delta0, delta1) := FinalDeltas(env, f);
    var crossed := pool.(ticks := f.ticks);
    if !FitsI128(delta0) || !FitsI128(delta1) then Called(Err(I128Overflow), crossed, f.totals)
    else
      var result := SwapResult(delta0, delta1, f.protocol, env.fee, f.price, f.tick, f.liquidity);
      Called(Ok(result),
             if env.mutate
             then crossed.(state := PoolState(f.price, f.tick, f.liquidity, Growth0(env, f.growth),
                                              Growth1(env, f.growth)))
             else crossed,
             f.totals)
  }

  /** `Pool::swap` (mutate) and `Pool::quote_swap` (no mutation). */
  ghost function CallSwap(grid: Grid, spacing: Spacing, pool: PoolValue, swapFee: SwapFee, params: SwapParams,
                          mutate: bool): Called
    requires SwapReady(grid, pool, params)
  {
    var fee := CallFee(swapFee, params);
    if fee.Err? then Called(Err(fee.error), pool, NO_TOTALS)
    else
      var env := StartEnv(grid, spacing, pool.state, fee.value, params, mutate);
      if params.specified == 0 then
        Called(Ok(SwapResult(0, 0, 0, env.fee, pool.state.price, pool.state.tick, pool.state.liquidity)), pool,
               NO_TOTALS)
      else if LimitExceeded(params, pool.state.price) then Called(Err(PriceLimitAlreadyExceeded), pool, NO_TOTALS)
      else
        StartOk(grid, spacing, pool, fee.value, params, mutate);
        match Run(env, StartLoop(pool, params))
        case Failed(e, ticks) => Called(Err(e), pool.(ticks := ticks), NO_TOTALS)
        case Reached(f) => Finish(env, pool, f)
  }

  // ------------------------------------------------------------ conservation

  /** The running amounts are exactly what the steps charged. */
  predicate Conserves(env: Env, s: Loop) {
    var paid := s.totals.amountIn + s.totals.lpFees + s.totals.protocolFees;
    && s.protocol == s.totals.protocolFees
    && (if env.specified < 0 then s.remaining == env.specified + paid && s.calculated == s.totals.amountOut
        else s.remaining == env.specified - s.totals.amountOut && s.calculated == 0 - paid)
  }

  lemma SplitIsExact(amountIn: nat, feeAmount: nat, feePips: nat, protocolPips: nat)
    ensures var r := ProtocolSplit(amountIn, feeAmount, feePips, protocolPips);
            r.Ok? ==> r.value.0 + r.value.1 == feeAmount
  {
  }

  lemma ChargeConserves(env: Env, s: Loop, step: SwapStep)
    requires Conserves(env, s) && Charge(env, s, step).Ok? && env.specified != 0
    ensures Conserves(env, Charge(env, s, step).value)
  {
    hide ProtocolSplit, Grow;
    SplitIsExact(step.amountIn, step.fee, env.fee, env.protocolPips);
  }

  lemma StepConserves(env: Env, s: Loop)
    requires LoopOk(env, s) && !Done(env, s) && StepOnce(env, s).Reached? && Conserves(env, s)
    ensures Conserves(env, StepOnce(env, s).loop)
  {
    hide *;
    SpecifiedNotZero(env, s);
    var target, step, charged := StepAnatomy(env, s);
    ChargeConserves(env, s, step);
    AdvanceConserves(env, s, target, step, charged);
  }

  lemma SpecifiedNotZero(env: Env, s: Loop)
    requires LoopOk(env, s) && !Done(env, s)
    ensures env.specified != 0 && s.liquidity > 0
  {
  }

  lemma AdvanceConserves(env: Env, s: Loop, target: Target, step: SwapStep, charged: Loop)
    requires target.initialized ==> target.tick in s.ticks
    requires Conserves(env, charged) && Advance(env, s, target, step, charged).Reached?
    ensures Conserves(env, Advance(env, s, target, step, charged).loop)
  {
    hide TickAt, Cross;
  }

  lemma {:induction false} RunConserves(env: Env, s: Loop)
    requires LoopOk(env, s) && Run(env, s).Reached? && Conserves(env, s)
    ensures Conserves(env, Run(env, s).loop)
    decreases Distance(env, s)
  {
    hide StepOnce, Conserves, Bracket;
    if !Done(env, s) {
      StepProgress(env, s);
      StepConserves(env, s);
      RunConserves(env, StepOnce(env, s).loop);
    }
  }

  /** The fees charged so far are at least their share of everything paid. */
  predicate FeeShareKept(env: Env, totals: Totals) {
    totals.amountIn * env.fee <= (totals.lpFees + totals.protocolFees) * (MAX_FEE - env.fee)
  }

  lemma ChargeKeepsFeeShare(env: Env, s: Loop, step: SwapStep)
    requires FeeShareKept(env, s.totals) && Charge(env, s, step).Ok?
    requires step.amountIn * env.fee <= step.fee * (MAX_FEE - env.fee)
    ensures FeeShareKept(env, Charge(env, s, step).value.totals)
  {
    hide ProtocolSplit, Grow, Settle;
    SplitIsExact(step.amountIn, step.fee, env.fee, env.protocolPips);
    AddProducts(s.totals.amountIn, step.amountIn, env.fee);
    AddProducts(s.totals.lpFees + s.totals.protocolFees, step.fee, MAX_FEE - env.fee);
  }

  lemma AddProducts(a: int, b: int, c: int)
    ensures (a + b) * c == a * c + b * c
  {
  }

  lemma StepKeepsFeeShare(env: Env, s: Loop)
    requires LoopOk(env, s) && !Done(env, s) && StepOnce(env, s).Reached? && FeeShareKept(env, s.totals)
    ensures FeeShareKept(env, StepOnce(env, s).loop.totals)
  {
    hide *;
    NotDone(env, s);
    var target, step, charged := StepAnatomy(env, s);
    SoundFee(s.price, PriceTarget(env.zeroForOne, env.grid(target.tick), env.limit), s.liquidity, s.remaining, env.fee,
             step);
    ChargeKeepsFeeShare(env, s, step);
    AdvanceKeepsFeeShare(env, s, target, step, charged);
  }

  lemma SoundFee(current: Price, target: Price, liquidity: nat, amount: int, fee: Fee, step: SwapStep)
    requires StepSound(current, target, liquidity, amount, fee, step)
    ensures step.amountIn * fee <= step.fee * (MAX_FEE - fee)
  {
    hide CoversAmount0, CoversAmount1, WithinAmount0, WithinAmount1;
  }

  lemma AdvanceKeepsFeeShare(env: Env, s: Loop, target: Target, step: SwapStep, charged: Loop)
    requires target.initialized ==> target.tick in s.ticks
    requires FeeShareKept(env, charged.totals) && Advance(env, s, target, step, charged).Reached?
    ensures FeeShareKept(env, Advance(env, s, target, step, charged).loop.totals)
  {
    hide TickAt, Cross;
  }

  lemma {:induction false} RunKeepsFeeShare(env: Env, s: Loop)
    requires LoopOk(env, s) && Run(env, s).Reached? && FeeShareKept(env, s.totals)
    ensures FeeShareKept(env, Run(env, s).loop.totals)
    decreases Distance(env, s)
  {
    hide StepOnce, FeeShareKept, Bracket;
    if !Done(env, s) {
      StepProgress(env, s);
      StepKeepsFeeShare(env, s);
      RunKeepsFeeShare(env, StepOnce(env, s).loop);
    }
  }

  /**
    A successful swap is charged, in LP and protocol fees together, at least the
    effective fee's share of everything the caller pays.
  */
  lemma SwapChargesFee(grid: Grid, spacing: Spacing, pool: PoolValue, swapFee: SwapFee, params: SwapParams,
                       mutate: bool)
    requires SwapReady(grid, pool, params)
    ensures var c := CallSwap(grid, spacing, pool, swapFee, params, mutate);
            c.result.Ok? ==>
              var fees := c.totals.lpFees + c.totals.protocolFees;
              (c.totals.amountIn + fees) * c.result.value.fee <= fees * MAX_FEE
  {
    hide Run, Bracket, CallFee, Growth, FeeShareKept;
    var fee := CallFee(swapFee, params);
    NothingCharged(StartEnv(grid, spacing, pool.state, swapFee, params, mutate));
    if fee.Ok? && params.specified != 0 && !LimitExceeded(params, pool.state.price) {
      StartOk(grid, spacing, pool, fee.value, params, mutate);
      var env := StartEnv(grid, spacing, pool.state, fee.value, params, mutate);
      var s := StartLoop(pool, params);
      NothingCharged(env);
      if Run(env, s).Reached? {
        RunKeepsFeeShare(env, s);
        ShareOfAll(env, Run(env, s).loop.totals);
      }
    }
  }

  lemma NothingCharged(env: Env)
    ensures FeeShareKept(env, NO_TOTALS)
  {
  }

  lemma ShareOfAll(env: Env, totals: Totals)
    requires FeeShareKept(env, totals)
    ensures var fees := totals.lpFees + totals.protocolFees;
            (totals.amountIn + fees) * env.fee <= fees * MAX_FEE
  {
    FeeShare(totals.amountIn, totals.lpFees + totals.protocolFees, env.fee, MAX_FEE);
  }

  /**
    A successful swap: the caller pays exactly the swapped input plus LP and
    protocol fees, receives exactly the swapped output, never pays more than an
    exact input nor receives more than an exact output, and stops early only at
    the price limit or when the liquidity runs out.
  */
  lemma SwapDelivers(grid: Grid, spacing: Spacing, pool: PoolValue, swapFee: SwapFee, params: SwapParams, mutate: bool)
    requires SwapReady(grid, pool, params)
    ensures var c := CallSwap(grid, spacing, pool, swapFee, params, mutate);
            c.result.Ok? ==>
              var r := c.result.value;
              var (paid, received) := if params.zeroForOne then (0 - r.delta0, r.delta1) else (0 - r.delta1, r.delta0);
              && paid == c.totals.amountIn + c.totals.lpFees + c.totals.protocolFees
              && received == c.totals.amountOut
              && r.amountToProtocol == c.totals.protocolFees
              && (params.specified < 0 ==> paid <= 0 - params.specified)
              && (params.specified > 0 ==> received <= params.specified)
              && (r.price == params.limit || r.liquidity == 0 || params.specified == 0
                  || (if params.specified < 0 then paid == 0 - params.specified else received == params.specified))
  {
    hide Run, Bracket, CallFee, Growth;
    var fee := CallFee(swapFee, params);
    if fee.Ok? && params.specified != 0 && !LimitExceeded(params, pool.state.price) {
      StartOk(grid, spacing, pool, fee.value, params, mutate);
      var env := StartEnv(grid, spacing, pool.state, fee.value, params, mutate);
      var s := StartLoop(pool, params);
      if Run(env, s).Reached? {
        RunConserves(env, s);
        var c := RunTraverses(env, s);
      }
    }
  }

  // ------------------------------------------------------ the protocol's part

  /** How often the loop of a swap goes round. */
  ghost function Rounds(grid: Grid, spacing: Spacing, pool: PoolValue, swapFee: SwapFee, params: SwapParams): nat
    requires SwapReady(grid, pool, params)
  {
    var fee := CallFee(swapFee, params);
    if fee.Err? || params.specified == 0 || LimitExceeded(params, pool.state.price) then 0
    else
      StartOk(grid, spacing, pool, fee.value, params, true);
      Iterations(StartEnv(grid, spacing, pool.state, fee.value, params, true), StartLoop(pool, params))
  }

  /** The protocol's share of everything paid so far, rounded down once for every round. */
  ghost predicate ProtocolShare(pips: nat, fee: Fee, totals: Totals, rounds: nat) {
    var paid := totals.amountIn + totals.lpFees + totals.protocolFees;
    if pips == 0 then totals.protocolFees == 0
    else if pips == fee then totals.lpFees == 0
    else totals.protocolFees * MAX_FEE <= paid * pips <= totals.protocolFees * MAX_FEE + (MAX_FEE - 1) * rounds
  }

  lemma ChargeShares(env: Env, s: Loop, step: SwapStep, rounds: nat)
    requires ProtocolShare(env.protocolPips, env.fee, s.totals, rounds) && Charge(env, s, step).Ok?
    ensures ProtocolShare(env.protocolPips, env.fee, Charge(env, s, step).value.totals, rounds + 1)
  {
    hide ProtocolSplit, Grow, Settle;
    ProtocolShareExact(step.amountIn, step.fee, env.fee, env.protocolPips);
    var paid := s.totals.amountIn + s.totals.lpFees + s.totals.protocolFees;
    AddProducts(paid, step.amountIn + step.fee, env.protocolPips);
  }

  lemma AdvanceShares(env: Env, s: Loop, target: Target, step: SwapStep, charged: Loop, rounds: nat)
    requires target.initialized ==> target.tick in s.ticks
    requires ProtocolShare(env.protocolPips, env.fee, charged.totals, rounds)
    requires Advance(env, s, target, step, charged).Reached?
    ensures ProtocolShare(env.protocolPips, env.fee, Advance(env, s, target, step, charged).loop.totals, rounds)
  {
    hide TickAt, Cross;
  }

  lemma {:induction false} RunShares(env: Env, s: Loop, rounds: nat)
    requires LoopOk(env, s) && Run(env, s).Reached? && ProtocolShare(env.protocolPips, env.fee, s.totals, rounds)
    ensures ProtocolShare(env.protocolPips, env.fee, Run(env, s).loop.totals, rounds + Iterations(env, s))
    decreases Distance(env, s)
  {
    hide StepOnce, ProtocolShare, Bracket;
    if !Done(env, s) {
      StepProgress(env, s);
      NotDone(env, s);
      var target, step, charged := StepAnatomy(env, s);
      ChargeShares(env, s, step, rounds);
      AdvanceShares(env, s, target, step, charged, rounds + 1);
      RunShares(env, StepOnce(env, s).loop, rounds + 1);
    }
  }

  /**
    What a successful swap pays the protocol: nothing without a protocol fee in
    its direction, every fee when the effective fee is the protocol fee alone,
    and otherwise the pips of everything paid, less than one token short for
    every round of the loop.
  */
  lemma SwapPaysProtocol(grid: Grid, spacing: Spacing, pool: PoolValue, swapFee: SwapFee, params: SwapParams)
    requires SwapReady(grid, pool, params)
    ensures var c := CallSwap(grid, spacing, pool, swapFee, params, true);
            c.result.Ok? ==>
              var r := c.result.value;
              var pips := if params.zeroForOne then swapFee.protocolFee.zeroForOne else swapFee.protocolFee.oneForZero;
              var paid := if params.zeroForOne then 0 - r.delta0 else 0 - r.delta1;
              if pips == 0 then r.amountToProtocol == 0
              else if pips == r.fee then r.amountToProtocol == paid - c.totals.amountIn
              else
                r.amountToProtocol * MAX_FEE <= paid * pips
                <= r.amountToProtocol * MAX_FEE + (MAX_FEE - 1) * Rounds(grid, spacing, pool, swapFee, params)
  {
    hide SwapReady, CallSwap, Rounds, DirectionalPips;
    SwapDelivers(grid, spacing, pool, swapFee, params, true);
    SwapShares(grid, spacing, pool, swapFee, params);
    PipsByName(swapFee.protocolFee, params.zeroForOne);
  }

  lemma PipsByName(protocolFee: ProtocolFee, direction: bool)
    ensures DirectionalPips(protocolFee, direction)
         == if direction then protocolFee.zeroForOne else protocolFee.oneForZero
  {
  }

  lemma SwapShares(grid: Grid, spacing: Spacing, pool: PoolValue, swapFee: SwapFee, params: SwapParams)
    requires SwapReady(grid, pool, params)
    ensures var c := CallSwap(grid, spacing, pool, swapFee, params, true);
            c.result.Ok? ==> ProtocolShare(DirectionalPips(swapFee.protocolFee, params.zeroForOne), c.result.value.fee,
                                           c.totals, Rounds(grid, spacing, pool, swapFee, params))
  {
    hide Run, Bracket, CallFee, Growth, ProtocolShare, Iterations, StartEnv, DirectionalPips;
    var fee := CallFee(swapFee, params);
    if fee.Ok? {
      var env := StartEnv(grid, spacing, pool.state, fee.value, params, true);
      CallPips(grid, spacing, pool, swapFee, params);
      NothingShared(env.protocolPips, env.fee);
      if params.specified != 0 && !LimitExceeded(params, pool.state.price) {
        StartOk(grid, spacing, pool, fee.value, params, true);
        var s := StartLoop(pool, params);
        if Run(env, s).Reached? {
          RunShares(env, s, 0);
        }
      }
    }
  }

  /** A call keeps the protocol's pips in its own direction, whatever LP fee overrides. */
  lemma CallPips(grid: Grid, spacing: Spacing, pool: PoolValue, swapFee: SwapFee, params: SwapParams)
    requires CallFee(swapFee, params).Ok?
    ensures var fee := CallFee(swapFee, params).value;
            && fee.protocolFee == swapFee.protocolFee
            && StartEnv(grid, spacing, pool.state, fee, params, true).protocolPips
               == DirectionalPips(swapFee.protocolFee, params.zeroForOne)
  {
    hide Growth, IsGrid;
  }

  lemma NothingShared(pips: nat, fee: Fee)
    ensures ProtocolShare(pips, fee, NO_TOTALS, 0)
  {
  }

  // ------------------------------------------------------------- the result

  /** The LP fee of a call: the override, or else the stored one. */
  function LpFeeOfCall(swapFee: SwapFee, params: SwapParams): Option<nat> {
    if params.lpFeeOverride.Some? then params.lpFeeOverride else swapFee.lpFee
  }

  /**
    What a successful swap reports: the price, tick and liquidity the pool then
    has, and the exact combination of the call's LP fee with the protocol fee of
    its direction.
  */
  lemma SwapReports(grid: Grid, spacing: Spacing, pool: PoolValue, swapFee: SwapFee, params: SwapParams)
    requires SwapReady(grid, pool, params) && swapFee.Valid()
    ensures var c := CallSwap(grid, spacing, pool, swapFee, params, true);
            c.result.Ok? ==>
              var r := c.result.value;
              && r.price == c.pool.state.price && r.tick == c.pool.state.tick
              && r.liquidity == c.pool.state.liquidity
              && match LpFeeOfCall(swapFee, params)
                 case None => r.fee == 0
                 case Some(lp) =>
                   ChargedAfter(if params.zeroForOne then swapFee.protocolFee.zeroForOne
                                else swapFee.protocolFee.oneForZero, lp, r.fee)
  {
    hide Run, Bracket, CallFee, Growth, ChargedAfter, Finish, LimitExceeded, StartLoop;
    var fee := CallFee(swapFee, params);
    if fee.Ok? {
      CallFeeIs(swapFee, params);
      if fee.value.lpFee.Some? {
        CachedFeesExact(fee.value);
      }
      if params.specified != 0 && !LimitExceeded(params, pool.state.price) {
        StartOk(grid, spacing, pool, fee.value, params, true);
        var env := StartEnv(grid, spacing, pool.state, fee.value, params, true);
        var s := StartLoop(pool, params);
        if Run(env, s).Reached? {
          FinishReports(env, pool, Run(env, s).loop);
        }
      }
    }
  }

  lemma FinishReports(env: Env, pool: PoolValue, f: Loop)
    requires env.mutate
    ensures var c := Finish(env, pool, f);
            c.result.Ok? ==>
              && c.result.value.price == c.pool.state.price && c.result.value.tick == c.pool.state.tick
              && c.result.value.liquidity == c.pool.state.liquidity && c.result.value.fee == env.fee
  {
  }

  lemma CallFeeIs(swapFee: SwapFee, params: SwapParams)
    requires swapFee.Valid() && CallFee(swapFee, params).Ok?
    ensures var fee := CallFee(swapFee, params).value;
            fee.Valid() && fee.protocolFee == swapFee.protocolFee && fee.lpFee == LpFeeOfCall(swapFee, params)
  {
    if params.lpFeeOverride.Some? {
      SettersKeepCaches(swapFee, params.lpFeeOverride.value, swapFee.protocolFee);
    }
  }

  // ------------------------------------------------------- quote equals swap

  /** Two loops that agree except for the outside growth stored in the ticks. */
  ghost predicate Twin(a: Loop, b: Loop) {
    && a == b.(ticks := a.ticks)
    && SameLiquidity(a.ticks, b.ticks)
  }

  ghost predicate TwinOutcome(a: Outcome, b: Outcome) {
    match (a, b)
    case (Reached(x), Reached(y)) => Twin(x, y)
    case (Failed(e, s), Failed(e', t)) => e == e' && SameLiquidity(s, t)
    case _ => false
  }

  lemma TwinNext(a: Ticks, b: Ticks, tick: int, zeroForOne: bool)
    requires SameLiquidity(a, b)
    ensures NextInitialized(a, tick, zeroForOne) == NextInitialized(b, tick, zeroForOne)
  {
    NextInitializedIsNearest(a, tick, zeroForOne);
    NextInitializedIsNearest(b, tick, zeroForOne);
  }

  lemma CrossesSame(env: Env, env': Env, a: Ticks, b: Ticks, t: int, growth: U256)
    requires SameLiquidity(a, b) && t in a
    ensures t in b && a[t].net == b[t].net
    ensures SameLiquidity(Cross(env, a, t, growth), Cross(env', b, t, growth))
  {
  }

  /** An iteration reads no outside growth: mutating and read-only ticks stay twins. */
  lemma StepTwins(env: Env, a: Loop, b: Loop)
    requires Twin(a, b) && a.liquidity > 0
    ensures TwinOutcome(StepOnce(env.(mutate := true), a), StepOnce(env.(mutate := false), b))
  {
    hide NextInitialized, WordBoundary, ComputeSwapStep, Settle, ProtocolSplit, Grow, TickAt, Cross, IsGrid,
         PriceTarget;
    var up, down := env.(mutate := true), env.(mutate := false);
    TwinNext(a.ticks, b.ticks, a.tick, env.zeroForOne);
    NextInitializedIsNearest(a.ticks, a.tick, env.zeroForOne);
    NextInitializedIsNearest(b.ticks, b.tick, env.zeroForOne);
    var target := NextTarget(up, a);
    assert target == NextTarget(down, b);
    var price := PriceTarget(env.zeroForOne, env.grid(target.tick), env.limit);
    var step := ComputeSwapStep(a.price, price, a.liquidity, a.remaining, env.fee);
    if step.Ok? {
      TwinCharge(env, a, b, step.value);
      if Charge(up, a, step.value).Ok? {
        TwinAdvance(env, a, b, target, step.value, Charge(up, a, step.value).value, Charge(down, b, step.value).value);
      }
    }
  }

  lemma TwinCharge(env: Env, a: Loop, b: Loop, step: SwapStep)
    requires Twin(a, b)
    ensures var x, y := Charge(env.(mutate := true), a, step), Charge(env.(mutate := false), b, step);
            (x.Err? && y.Err? && x.error == y.error) || (x.Ok? && y.Ok? && Twin(x.value, y.value))
  {
    hide Settle, ProtocolSplit, Grow, SameLiquidity;
    TwinSettle(env, a, b, step);
    assert a.growth == b.growth && a.liquidity == b.liquidity && a.protocol == b.protocol && a.totals == b.totals;
  }

  lemma TwinSettle(env: Env, a: Loop, b: Loop, step: SwapStep)
    requires Twin(a, b)
    ensures Settle(env.(mutate := true), a, step) == Settle(env.(mutate := false), b, step)
  {
    hide SameLiquidity;
  }

  lemma TwinAdvance(env: Env, a: Loop, b: Loop, target: Target, step: SwapStep, x: Loop, y: Loop)
    requires Twin(a, b) && Twin(x, y)
    requires target.initialized ==> target.tick in a.ticks && target.tick in b.ticks
    ensures TwinOutcome(Advance(env.(mutate := true), a, target, step, x),
                        Advance(env.(mutate := false), b, target, step, y))
  {
    hide TickAt, Cross, IsGrid;
    if target.initialized {
      CrossesSame(env.(mutate := true), env.(mutate := false), a.ticks, b.ticks, target.tick, x.growth);
    }
  }

  lemma ReadOnlyStep(env: Env, s: Loop)
    requires !env.mutate && s.liquidity > 0
    ensures match StepOnce(env, s) case Reached(x) => x.ticks == s.ticks case Failed(_, t) => t == s.ticks
  {
    hide NextInitialized, WordBoundary, ComputeSwapStep, Settle, ProtocolSplit, Grow, TickAt, IsGrid, PriceTarget;
    NextInitializedIsNearest(s.ticks, s.tick, env.zeroForOne);
  }

  lemma {:induction false} RunTwins(env: Env, a: Loop, b: Loop)
    requires Twin(a, b)
    requires LoopOk(env.(mutate := true), a) && LoopOk(env.(mutate := false), b)
    ensures TwinOutcome(Run(env.(mutate := true), a), Run(env.(mutate := false), b))
    ensures match Run(env.(mutate := false), b) case Reached(x) => x.ticks == b.ticks case Failed(_, t) => t == b.ticks
    decreases Distance(env.(mutate := true), a)
  {
    hide StepOnce, Bracket;
    var up, down := env.(mutate := true), env.(mutate := false);
    if !Done(up, a) {
      StepProgress(up, a);
      StepProgress(down, b);
      StepTwins(env, a, b);
      ReadOnlyStep(down, b);
      if StepOnce(up, a).Reached? {
        RunTwins(env, StepOnce(up, a).loop, StepOnce(down, b).loop);
      }
    }
  }

  /** A quote changes nothing, and its result is the result of the swap with the same parameters. */
  lemma QuoteEqualsSwap(grid: Grid, spacing: Spacing, pool: PoolValue, swapFee: SwapFee, params: SwapParams)
    requires SwapReady(grid, pool, params)
    ensures var quote := CallSwap(grid, spacing, pool, swapFee, params, false);
            var swap := CallSwap(grid, spacing, pool, swapFee, params, true);
            quote.result == swap.result && quote.totals == swap.totals && quote.pool == pool
  {
    hide Run, CallFee, StartEnv, StartLoop, SwapReady, LoopOk, Twin, Finish, LimitExceeded;
    var fee := CallFee(swapFee, params);
    if fee.Ok? {
      StartEnvTwins(grid, spacing, pool, fee.value, params);
    }
    if fee.Ok? && params.specified != 0 && !LimitExceeded(params, pool.state.price) {
      StartOk(grid, spacing, pool, fee.value, params, true);
      StartOk(grid, spacing, pool, fee.value, params, false);
      var s := StartLoop(pool, params);
      TwinOfItself(s);
      var up := StartEnv(grid, spacing, pool.state, fee.value, params, true);
      var down := StartEnv(grid, spacing, pool.state, fee.value, params, false);
      RunTwins(up, s, s);
      match (Run(up, s), Run(down, s))
      case (Reached(x), Reached(y)) => FinishTwins(up, pool, x, y);
      case _ =>
    }
  }

  /** The final conversions read no outside growth. */
  lemma FinishTwins(env: Env, pool: PoolValue, x: Loop, y: Loop)
    requires Twin(x, y) && y.ticks == pool.ticks
    ensures var (swap, quote) := (Finish(env.(mutate := true), pool, x), Finish(env.(mutate := false), pool, y));
            quote.result == swap.result && quote.totals == swap.totals && quote.pool == pool
  {
    hide SameLiquidity;
  }

  lemma StartEnvTwins(grid: Grid, spacing: Spacing, pool: PoolValue, swapFee: SwapFee, params: SwapParams)
    ensures var up := StartEnv(grid, spacing, pool.state, swapFee, params, true);
            var down := StartEnv(grid, spacing, pool.state, swapFee, params, false);
            && up.mutate && !down.mutate
            && up.(mutate := true) == up && up.(mutate := false) == down
            && up.fee == down.fee && up.grid == down.grid
            && up.zeroForOne == down.zeroForOne && up.specified == down.specified && up.otherGrowth == down.otherGrowth
    ensures StartLoop(pool, params).ticks == pool.ticks
  {
    hide IsGrid, Growth;
  }

  lemma TwinOfItself(s: Loop)
    ensures Twin(s, s)
  {
  }
}
