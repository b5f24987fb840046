/**
  The swap loop of src/core/concentrated/pool.rs as a function: one iteration,
  the whole run with its termination measure, and the final result.
*/
module SwapSpec {
  import opened Arith
  import opened Words
  import opened Wrappers
  import opened FullMath
  import opened SqrtPriceMath
  import opened SwapMath
  import opened Fees
  import opened PoolTypes
  import opened Sums

  // ------------------------------------------------- next initialized tick

  ghost predicate IsLastAtOrBelow(ticks: Ticks, t: int, tick: int) {
    t in ticks && t <= tick && forall x :: x in ticks && x <= tick ==> x <= t
  }

  ghost predicate IsFirstAbove(ticks: Ticks, t: int, tick: int) {
    t in ticks && tick < t && forall x :: x in ticks && tick < x ==> t <= x
  }

  /** The next initialized tick: at or below the current one going down, strictly above going up. */
  ghost function NextInitialized(ticks: Ticks, tick: int, zeroForOne: bool): Option<int> {
    if zeroForOne then
      if exists t :: IsLastAtOrBelow(ticks, t, tick) then
        var t :| IsLastAtOrBelow(ticks, t, tick); Some(t)
      else None
    else
      if exists t :: IsFirstAbove(ticks, t, tick) then
        var t :| IsFirstAbove(ticks, t, tick); Some(t)
      else None
  }

  lemma {:induction false} GreatestMember(s: set<int>) returns (t: int)
    requires s != {}
    ensures t in s && forall x :: x in s ==> x <= t
    decreases s
  {
    var first := Pick(s);
    t := first;
    if s - {first} != {} {
      var u := GreatestMember(s - {first});
      t := Max(first, u);
      assert u in s;
    }
    forall x | x in s
      ensures x <= t
    {
      assert x == first || x in s - {first};
    }
  }

  lemma {:induction false} LeastMember(s: set<int>) returns (t: int)
    requires s != {}
    ensures t in s && forall x :: x in s ==> t <= x
    decreases s
  {
    var first := Pick(s);
    t := first;
    if s - {first} != {} {
      var u := LeastMember(s - {first});
      t := Min(first, u);
      assert u in s;
    }
    forall x | x in s
      ensures t <= x
    {
      assert x == first || x in s - {first};
    }
  }

  /** There is no next tick only if no stored tick lies in that direction. */
  lemma NextInitializedIsNearest(ticks: Ticks, tick: int, zeroForOne: bool)
    ensures match NextInitialized(ticks, tick, zeroForOne)
            case Some(t) => if zeroForOne then IsLastAtOrBelow(ticks, t, tick) else IsFirstAbove(ticks, t, tick)
            case None => forall x :: x in ticks ==> if zeroForOne then tick < x else x <= tick
  {
    if zeroForOne {
      var s := set x | x in ticks && x <= tick;
      if s != {} {
        var t := GreatestMember(s);
        forall x | x in ticks && x <= tick
          ensures x <= t
        {
          assert x in s;
        }
        assert IsLastAtOrBelow(ticks, t, tick);
      } else {
        forall x | x in ticks
          ensures tick < x
        {
          assert x !in s;
        }
      }
    } else {
      var s := set x | x in ticks && tick < x;
      if s != {} {
        var t := LeastMember(s);
        forall x | x in ticks && tick < x
          ensures t <= x
        {
          assert x in s;
        }
        assert IsFirstAbove(ticks, t, tick);
      } else {
        forall x | x in ticks
          ensures x <= tick
        {
          assert x !in s;
        }
      }
    }
  }

  // -------------------------------------------------------- one iteration

  /** What stays fixed during one swap. `mutate` tells `swap` from `quote_swap`. */
  datatype Env = Env(grid: Grid, spacing: Spacing, zeroForOne: bool, specified: I256, limit: Price,
                     fee: Fee, protocolPips: nat, otherGrowth: U256, mutate: bool)

  /** Running totals kept only to state what the run did. */
  datatype Totals = Totals(amountIn: nat, amountOut: nat, lpFees: nat, protocolFees: nat, crossed: seq<int>)

  datatype Loop = Loop(price: Price, tick: int, liquidity: U128, remaining: I256, calculated: I256,
                       growth: U256, protocol: U256, ticks: Ticks, totals: Totals)

  /** An iteration or a run either goes on or fails, leaving the tick map as it is by then. */
  datatype Outcome = Reached(loop: Loop) | Failed(error: Error, ticks: Ticks)

  datatype Target = Target(tick: int, initialized: bool)

  /** The next initialized tick inside the current 256-tick word, or the word's boundary. */
  ghost function NextTarget(env: Env, s: Loop): Target {
    var boundary := WordBoundary(s.tick, env.spacing, env.zeroForOne);
    match NextInitialized(s.ticks, s.tick, env.zeroForOne)
    case None => Target(boundary, false)
    case Some(t) =>
      if (if env.zeroForOne then t >= boundary else t <= boundary) then Target(t, true)
      else Target(boundary, false)
  }

  /** The target is the nearest stored tick up to the word's boundary, or that boundary if none is stored up to it. */
  lemma NextTargetIs(env: Env, s: Loop)
    ensures var (target, end) := (NextTarget(env, s), WordBoundary(s.tick, env.spacing, env.zeroForOne));
            if env.zeroForOne then
              && (target.initialized <==> exists t :: t in s.ticks && end <= t <= s.tick)
              && (if target.initialized then end <= target.tick && IsLastAtOrBelow(s.ticks, target.tick, s.tick)
                  else target.tick == end)
            else
              && (target.initialized <==> exists t :: t in s.ticks && s.tick < t <= end)
              && (if target.initialized then target.tick <= end && IsFirstAbove(s.ticks, target.tick, s.tick)
                  else target.tick == end)
  {
    hide WordBoundary;
    NextInitializedIsNearest(s.ticks, s.tick, env.zeroForOne);
  }

  function ToI256(x: nat): Result<I256> {
    if x >= W255 then Err(SignedOverflow) else Ok(x)
  }

  function CheckedI256(x: int): Result<I256> {
    if 0 - W255 <= x < W255 then Ok(x) else Err(AmountOverflow)
  }

  /** Charging a step to the remaining and the calculated amount. */
  function Settle(env: Env, s: Loop, step: SwapStep): Result<(I256, I256)> {
    if env.specified > 0 then
      var amountOut :- ToI256(step.amountOut);
      var remaining :- CheckedI256(s.remaining - amountOut);
      var paid :- PaidIn(step);
      var calculated :- CheckedI256(s.calculated - paid);
      Ok((remaining, calculated))
    else
      var paid :- PaidIn(step);
      var remaining :- CheckedI256(s.remaining + paid);
      var amountOut :- ToI256(step.amountOut);
      var calculated :- CheckedI256(s.calculated + amountOut);
      Ok((remaining, calculated))
  }

  function PaidIn(step: SwapStep): Result<I256> {
    if step.amountIn + step.fee >= W256 then Err(AmountOverflow) else ToI256(step.amountIn + step.fee)
  }

  /** The input token's fee growth after a step's LP fee is shared by the active liquidity. */
  function Grow(growth: U256, lpFee: nat, liquidity: nat): Result<U256> {
    var share := FloorQuotient(lpFee, W128, liquidity);
    if share.Err? then Err(FeeTooLarge)
    else if growth + share.value >= W256 then Err(FeeTooLarge)
    else Ok(growth + share.value)
  }

  /** `cross_tick`: outside becomes global minus outside, in both tokens. */
  function Flip(tick: TickInner, growth0: U256, growth1: U256): TickInner {
    tick.(outside0 := WrappingSub(growth0, tick.outside0), outside1 := WrappingSub(growth1, tick.outside1))
  }

  function Growth0(env: Env, growth: U256): U256 {
    if env.zeroForOne then growth else env.otherGrowth
  }

  function Growth1(env: Env, growth: U256): U256 {
    if env.zeroForOne then env.otherGrowth else growth
  }

  /** Crossing an initialized tick with the current fee growth. */
  function Cross(env: Env, ticks: Ticks, t: int, growth: U256): Ticks
    requires t in ticks
  {
    if env.mutate then ticks[t := Flip(ticks[t], Growth0(env, growth), Growth1(env, growth))] else ticks
  }

  /** Moving to the step's end price: cross, change liquidity, set the tick. */
  function Advance(env: Env, s: Loop, target: Target, step: SwapStep, moved: Loop): Outcome
    requires target.initialized ==> target.tick in s.ticks
  {
    var reached := step.next == env.grid(target.tick);
    var tick := if reached then (if env.zeroForOne then target.tick - 1 else target.tick)
                else if step.next != s.price then TickAt(env.grid, step.next)
                else s.tick;
    if reached && target.initialized then
      var net := s.ticks[target.tick].net;
      var liquidity := s.liquidity + (if env.zeroForOne then 0 - net else net);
      var ticks := Cross(env, s.ticks, target.tick, moved.growth);
      if !(0 <= liquidity < W128) then Failed(LiquidityUnderflow, ticks)
      else
        Reached(moved.(price := step.next, tick := tick, liquidity := liquidity, ticks := ticks,
                       totals := moved.totals.(crossed := moved.totals.crossed + [target.tick])))
    else
      Reached(moved.(price := step.next, tick := tick))
  }

  /** The accounting half of an iteration. */
  function Charge(env: Env, s: Loop, step: SwapStep): Result<Loop> {
    var (remaining, calculated) :- Settle(env, s, step);
    var (lpFee, cut) :- ProtocolSplit(step.amountIn, step.fee, env.fee, env.protocolPips);
    var protocol :- if s.protocol + cut >= W256 then Err(AmountOverflow) else Ok(s.protocol + cut);
    var growth :- Grow(s.growth, lpFee, s.liquidity);
    var totals := Totals(s.totals.amountIn + step.amountIn, s.totals.amountOut + step.amountOut,
                         s.totals.lpFees + lpFee, s.totals.protocolFees + cut, s.totals.crossed);
    Ok(s.(remaining := remaining, calculated := calculated, growth := growth, protocol := protocol, totals := totals))
  }

  /** One iteration of the loop. */
  ghost function StepOnce(env: Env, s: Loop): Outcome
    requires s.liquidity > 0
  {
    NextInitializedIsNearest(s.ticks, s.tick, env.zeroForOne);
    var target := NextTarget(env, s);
    var price := PriceTarget(env.zeroForOne, env.grid(target.tick), env.limit);
    var step := ComputeSwapStep(s.price, price, s.liquidity, s.remaining, env.fee);
    if step.Err? then Failed(step.error, s.ticks)
    else
      var charged := Charge(env, s, step.value);
      if charged.Err? then Failed(charged.error, s.ticks)
      else Advance(env, s, target, step.value, charged.value)
  }

  // ------------------------------------------------------------ invariants

  ghost predicate KeysInRange(ticks: Ticks) {
    forall t :: t in ticks ==> MIN_TICK <= t <= MAX_TICK
  }

  /** The remaining amount never changes sign and never grows. */
  predicate RemainingOk(specified: int, remaining: int) {
    if specified < 0 then specified <= remaining <= 0 else 0 <= remaining <= specified
  }

  predicate LimitOk(env: Env, price: Price) {
    if env.zeroForOne then MIN_SQRT_PRICE < env.limit <= price
    else price <= env.limit < MAX_SQRT_PRICE
  }

  /** What holds before every iteration. */
  ghost predicate LoopOk(env: Env, s: Loop) {
    && Bracket(env.grid, s.tick, s.price)
    && LimitOk(env, s.price)
    && KeysInRange(s.ticks)
    && env.specified != 0
    && RemainingOk(env.specified, s.remaining)
  }

  predicate Done(env: Env, s: Loop) {
    s.remaining == 0 || s.price == env.limit || s.liquidity == 0
  }

  lemma NotDone(env: Env, s: Loop)
    requires !Done(env, s)
    ensures s.liquidity > 0
  {
  }

  /** No stored tick in the half-open interval (lo, hi]. */
  ghost predicate NoTickIn(ticks: Ticks, lo: int, hi: int) {
    forall t :: t in ticks ==> !(lo < t <= hi)
  }

  /** The target lies on the right side, and no stored tick is skipped on the way to it. */
  lemma TargetSide(env: Env, s: Loop)
    requires LoopOk(env, s) && !Done(env, s)
    ensures var target := NextTarget(env, s);
            && MIN_TICK <= target.tick <= MAX_TICK
            && (target.initialized ==> target.tick in s.ticks)
            && (env.zeroForOne ==> target.tick <= s.tick && NoTickIn(s.ticks, target.tick, s.tick)
                                   && (!target.initialized ==> target.tick !in s.ticks))
            && (!env.zeroForOne ==> s.tick < target.tick && NoTickIn(s.ticks, s.tick, target.tick - 1)
                                    && (!target.initialized ==> target.tick !in s.ticks))
  {
    hide WordBoundary, NextInitialized, IsGrid;
    NextInitializedIsNearest(s.ticks, s.tick, env.zeroForOne);
    WordBoundarySide(s.tick, env.spacing, env.zeroForOne);
    if !env.zeroForOne {
      GridTop(env.grid);
    }
  }

  lemma GridTop(grid: Grid)
    ensures grid(MAX_TICK) == MAX_SQRT_PRICE && grid(MIN_TICK) == MIN_SQRT_PRICE
  {
  }

  /** The step's target price is between the current price and the limit. */
  lemma TargetPriceSide(env: Env, s: Loop)
    requires LoopOk(env, s) && !Done(env, s)
    ensures var price := PriceTarget(env.zeroForOne, env.grid(NextTarget(env, s).tick), env.limit);
            if env.zeroForOne then env.limit <= price <= s.price else s.price <= price <= env.limit
  {
    hide NextTarget;
    TargetSide(env, s);
    var t := NextTarget(env, s).tick;
    if env.zeroForOne {
      GridMono(env.grid, t, s.tick);
    } else {
      GridMono(env.grid, s.tick + 1, t);
    }
  }

  lemma ChargeEffect(env: Env, s: Loop, step: SwapStep)
    requires Charge(env, s, step).Ok?
    ensures var c := Charge(env, s, step).value;
            && c.price == s.price && c.tick == s.tick && c.liquidity == s.liquidity && c.ticks == s.ticks
            && c.totals.crossed == s.totals.crossed
            && c.remaining == (if env.specified > 0 then s.remaining - step.amountOut
                               else s.remaining + step.amountIn + step.fee)
            && c.calculated == (if env.specified > 0 then s.calculated - step.amountIn - step.fee
                                else s.calculated + step.amountOut)
  {
    hide Grow, ProtocolSplit;
  }

  /** The tick at the end of a step that stopped strictly before the target tick. */
  lemma TickOfPartialMove(env: Env, s: Loop, target: Target, next: Price)
    requires LoopOk(env, s) && next != s.price && next != env.grid(target.tick)
    requires MIN_TICK <= target.tick <= MAX_TICK
    requires if env.zeroForOne then target.tick <= s.tick && env.grid(target.tick) <= next <= s.price
             else s.tick < target.tick && s.price <= next <= env.grid(target.tick)
    ensures var t := TickAt(env.grid, next);
            Bracket(env.grid, t, next)
            && (if env.zeroForOne then target.tick <= t <= s.tick else s.tick <= t < target.tick)
  {
    hide IsGrid, TickAt;
    TickAtIsFloor(env.grid, next);
    var t := TickAt(env.grid, next);
    if env.zeroForOne {
      if t < target.tick {
        GridMono(env.grid, t + 1, target.tick);
      }
      if t > s.tick {
        GridMono(env.grid, s.tick + 1, t);
      }
    } else {
      if t < s.tick {
        GridMono(env.grid, t + 1, s.tick);
      }
      if t >= target.tick {
        GridMono(env.grid, target.tick, t);
      }
    }
  }

  /** Where the tick goes, and what the tick map looks like in between. */
  ghost predicate MoveOk(env: Env, s: Loop, s': Loop, target: Target) {
    && Bracket(env.grid, s'.tick, s'.price)
    && (if env.zeroForOne then env.limit <= s'.price <= s.price else s.price <= s'.price <= env.limit)
    && (s'.price == env.grid(target.tick) ==>
          s'.tick == if env.zeroForOne then target.tick - 1 else target.tick)
    && (s'.price != env.grid(target.tick) ==>
          if env.zeroForOne then target.tick <= s'.tick <= s.tick else s.tick <= s'.tick < target.tick)
  }

  lemma AdvanceMove(env: Env, s: Loop, step: SwapStep, charged: Loop)
    requires LoopOk(env, s) && !Done(env, s)
    requires var price := PriceTarget(env.zeroForOne, env.grid(NextTarget(env, s).tick), env.limit);
             Min(s.price, price) <= step.next <= Max(s.price, price)
    requires NextTarget(env, s).initialized ==> NextTarget(env, s).tick in s.ticks
    ensures var target := NextTarget(env, s);
            var r := Advance(env, s, target, step, charged);
            r.Reached? ==> r.loop.price == step.next && MoveOk(env, s, r.loop, target)
  {
    hide NextTarget, IsGrid, TickAt, Cross;
    var target := NextTarget(env, s);
    TargetSide(env, s);
    TargetPriceSide(env, s);
    GridTop(env.grid);
    var tickPrice := env.grid(target.tick);
    if step.next == tickPrice {
      if env.zeroForOne {
        GridMono(env.grid, MIN_TICK, target.tick);
        GridMono(env.grid, target.tick - 1, target.tick);
      } else if target.tick < MAX_TICK {
        GridMono(env.grid, target.tick, target.tick + 1);
      }
    } else if step.next != s.price {
      TickOfPartialMove(env, s, target, step.next);
    }
  }

  /** How far the run can still go: zero once the amount is used up or the limit is reached. */
  ghost function Distance(env: Env, s: Loop): nat
    requires LoopOk(env, s)
  {
    if s.remaining == 0 || s.price == env.limit then 0
    else 1 + (if env.zeroForOne then s.tick - MIN_TICK else MAX_TICK - s.tick)
  }

  /**
    Progress: an iteration keeps the loop invariant, and it moves the tick
    strictly in the swap direction, or uses up the amount, or reaches the
    limit, also when the step has zero width or the fee absorbs the input.
  */
  lemma StepProgress(env: Env, s: Loop)
    requires LoopOk(env, s) && !Done(env, s)
    ensures var r := StepOnce(env, s);
            r.Reached? ==>
              && LoopOk(env, r.loop)
              && MoveOk(env, s, r.loop, NextTarget(env, s))
              && (r.loop.remaining == 0 || r.loop.price == env.limit
                  || (if env.zeroForOne then r.loop.tick < s.tick else s.tick < r.loop.tick))
              && Distance(env, r.loop) < Distance(env, s)
  {
    hide NextTarget, NextInitialized, ComputeSwapStep, IsGrid, Charge, Bracket, CoversAmount0, CoversAmount1,
         WithinAmount0, WithinAmount1;
    var target := NextTarget(env, s);
    var price := PriceTarget(env.zeroForOne, env.grid(target.tick), env.limit);
    TargetSide(env, s);
    TargetPriceSide(env, s);
    var computed := ComputeSwapStep(s.price, price, s.liquidity, s.remaining, env.fee);
    StepTotalAndSound(s.price, price, s.liquidity, s.remaining, env.fee);
    if computed.Ok? {
      var step := computed.value;
      var charged := Charge(env, s, step);
      if charged.Ok? {
        ChargeEffect(env, s, step);
        AdvanceMove(env, s, step, charged.value);
        AdvanceKeepsRange(env, s, target, step, charged.value);
        assert MIN_TICK <= s.tick <= MAX_TICK by {
          BracketRange(env.grid, s.tick, s.price);
        }
        var r := Advance(env, s, target, step, charged.value);
        if r.Reached? {
          BracketRange(env.grid, r.loop.tick, r.loop.price);
        }
      }
    }
  }

  lemma BracketRange(grid: Grid, tick: int, p: Price)
    requires Bracket(grid, tick, p)
    ensures MIN_TICK <= tick <= MAX_TICK
  {
  }

  lemma AdvanceKeepsRange(env: Env, s: Loop, target: Target, step: SwapStep, charged: Loop)
    requires KeysInRange(s.ticks) && charged.ticks == s.ticks
    requires target.initialized ==> target.tick in s.ticks
    ensures var r := Advance(env, s, target, step, charged);
            r.Reached? ==> KeysInRange(r.loop.ticks) && r.loop.remaining == charged.remaining
  {
    hide TickAt;
  }

  // -------------------------------------------------------------- the run

  /** The whole loop. It terminates because every iteration makes progress. */
  ghost function Run(env: Env, s: Loop): Outcome
    requires LoopOk(env, s)
    decreases Distance(env, s)
  {
    if Done(env, s) then Reached(s)
    else
      var r := StepOnce(env, s);
      StepProgress(env, s);
      if r.Failed? then r else Run(env, r.loop)
  }

  /** How often the loop goes round. */
  ghost function Iterations(env: Env, s: Loop): nat
    requires LoopOk(env, s)
    decreases Distance(env, s)
  {
    if Done(env, s) then 0
    else
      var r := StepOnce(env, s);
      StepProgress(env, s);
      if r.Failed? then 1 else 1 + Iterations(env, r.loop)
  }
}
