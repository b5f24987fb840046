/**
  Principal: what the positions are worth exactly, and that no operation lets
  their total worth grow by more than the tokens paid in.
*/
module Solvency {
  import opened Bits
  import opened Words
  import opened Wrappers
  import opened SqrtPriceMath
  import opened SwapMath
  import opened PoolTypes
  import opened PoolSpec
  import opened Sums
  import opened Reconciliation
  import opened ActiveLiquidity
  import opened SwapSpec
  import opened Traversal

  // ----------------------------------------------------- exact principal

  /** 2^96 / p: the token0 amount per unit of liquidity between p and infinity. */
  ghost function PerLiquidity0(p: Price): real {
    (Q96 as real) / (p as real)
  }

  /** p / 2^96: the token1 amount per unit of liquidity between zero and p. */
  ghost function PerLiquidity1(p: Price): real {
    Q96Positive();
    (p as real) / (Q96 as real)
  }

  lemma Q96Positive()
    ensures Q96 > 0
  {
  }

  function ClampPrice(p: Price, low: Price, high: Price): Price {
    if p < low then low else if p > high then high else p
  }

  ghost function PerLiquidity(p: Price, token0: bool): real {
    if token0 then PerLiquidity0(p) else PerLiquidity1(p)
  }

  /** The exact token amount a position is worth at price p: all token0 below its range, all token1 above it. */
  ghost function Worth(grid: Grid, k: PositionKey, liquidity: int, p: Price, token0: bool): real {
    var low, high := grid(k.lower), grid(k.upper);
    (liquidity as real) * (PerLiquidity(ClampPrice(p, low, high), token0)
                           - PerLiquidity(if token0 then high else low, token0))
  }

  ghost function WorthPart(grid: Grid, m: Positions, p: Price, token0: bool): PositionKey -> real {
    (k: PositionKey) => Worth(grid, k, LiquidityOf(m, k), p, token0)
  }

  /** What all positions together are worth at price p. */
  ghost function TotalWorth(grid: Grid, m: Positions, p: Price, token0: bool): real {
    SumReal(m.Keys, WorthPart(grid, m, p, token0))
  }

  /** Change of the amount per unit of liquidity when the price moves. */
  ghost function PerLiquidityChange(from: Price, to: Price, token0: bool): real {
    PerLiquidity(to, token0) - PerLiquidity(from, token0)
  }

  /** A position with a non-empty range is never worth less than nothing. */
  lemma WorthNonNegative(grid: Grid, k: PositionKey, liquidity: nat, p: Price, token0: bool)
    requires k.lower < k.upper
    ensures Worth(grid, k, liquidity, p, token0) >= 0.0
  {
    hide PerLiquidity0, PerLiquidity1, IsGrid;
    GridMono(grid, k.lower, k.upper);
    var low, high := grid(k.lower), grid(k.upper);
    var at := ClampPrice(p, low, high);
    PerLiquidityMono(at, high);
    PerLiquidityMono(low, at);
  }

  lemma PerLiquidityMono(a: Price, b: Price)
    requires a <= b
    ensures PerLiquidity0(a) >= PerLiquidity0(b) && PerLiquidity1(a) <= PerLiquidity1(b)
  {
    Q96Positive();
    RealQuotient(Q96 as real, a as real, PerLiquidity0(a));
    RealQuotient(Q96 as real, b as real, PerLiquidity0(b));
    RealQuotient(a as real, Q96 as real, PerLiquidity1(a));
    RealQuotient(b as real, Q96 as real, PerLiquidity1(b));
    QuotientOrder(a as real, b as real, PerLiquidity0(a), PerLiquidity0(b), Q96 as real);
    QuotientMono(a as real, b as real, PerLiquidity1(a), PerLiquidity1(b), Q96 as real);
  }

  lemma RealQuotient(n: real, d: real, q: real)
    requires d != 0.0 && q == n / d
    ensures q * d == n
  {
  }

  lemma QuotientOrder(a: real, b: real, x: real, y: real, q: real)
    requires 0.0 < a <= b && x * a == q && y * b == q && q > 0.0
    ensures x >= y
  {
    PositiveFactor(x, a);
    PositiveFactor(y, b);
    if x < y {
      ProductOrder(x, y, a, b);
    }
  }

  lemma PositiveFactor(x: real, a: real)
    requires a > 0.0 && x * a > 0.0
    ensures x > 0.0
  {
  }

  lemma ProductOrder(x: real, y: real, a: real, b: real)
    requires 0.0 < x < y && 0.0 < a <= b
    ensures x * a < y * b
  {
    assert x * a < y * a;
    assert y * a <= y * b;
  }

  lemma QuotientMono(a: real, b: real, x: real, y: real, q: real)
    requires a <= b && x * q == a && y * q == b && q > 0.0
    ensures x <= y
  {
    CancelReal(x, y, q);
  }

  // ------------------------------------------ integer amounts against reals

  lemma RealCovers0(amount: int, a: Price, b: Price, liquidity: nat)
    ensures CoversAmount0(amount, a, b, liquidity) <==>
              (liquidity as real) * (PerLiquidity0(a) - PerLiquidity0(b)) <= amount as real
    ensures WithinAmount0(amount, a, b, liquidity) <==>
              (liquidity as real) * (PerLiquidity0(a) - PerLiquidity0(b)) >= amount as real
  {
    hide PerLiquidity0, Pow2;
    PerLiquidity0Def(a);
    PerLiquidity0Def(b);
    CrossMultiplied(amount, a, b, liquidity, Q96, PerLiquidity0(a), PerLiquidity0(b));
  }

  /** Comparing amounts cross-multiplied is comparing them as reals. */
  lemma CrossMultiplied(amount: int, a: int, b: int, liquidity: int, q: int, x: real, y: real)
    requires a > 0 && b > 0 && x * (a as real) == q as real && y * (b as real) == q as real
    ensures liquidity * q * (b - a) <= amount * (a * b) <==> (liquidity as real) * (x - y) <= amount as real
    ensures liquidity * q * (b - a) >= amount * (a * b) <==> (liquidity as real) * (x - y) >= amount as real
  {
    var rq, ra, rb, l, r := q as real, a as real, b as real, liquidity as real, amount as real;
    AmountIdentity(l, x, y, ra, rb, rq);
    RealProducts(amount, a, b, liquidity, q);
    CancelReal(l * (x - y), r, ra * rb);
    CancelReal(r, l * (x - y), ra * rb);
  }

  lemma RealProducts(amount: int, a: int, b: int, liquidity: int, q: int)
    ensures (liquidity * q * (b - a)) as real == (liquidity as real) * (q as real) * (b as real - a as real)
    ensures (amount * (a * b)) as real == (amount as real) * ((a as real) * (b as real))
  {
  }

  lemma PerLiquidity0Def(p: Price)
    ensures PerLiquidity0(p) * (p as real) == Q96 as real
  {
    RealQuotient(Q96 as real, p as real, PerLiquidity0(p));
  }

  lemma AmountIdentity(l: real, x: real, y: real, a: real, b: real, q: real)
    requires x * a == q && y * b == q && a > 0.0 && b > 0.0
    ensures l * (x - y) * (a * b) == l * q * (b - a)
    ensures a * b > 0.0
  {
    assert (x - y) * (a * b) == (x * a) * b - (y * b) * a;
  }

  lemma CancelReal(u: real, v: real, d: real)
    requires d > 0.0
    ensures u * d <= v * d <==> u <= v
  {
    if u > v {
      assert (u - v) * d > 0.0;
    } else {
      assert (v - u) * d >= 0.0;
    }
  }

  lemma RealCovers1(amount: int, a: Price, b: Price, liquidity: nat)
    ensures CoversAmount1(amount, a, b, liquidity) <==>
              (liquidity as real) * (PerLiquidity1(b) - PerLiquidity1(a)) <= amount as real
    ensures WithinAmount1(amount, a, b, liquidity) <==>
              (liquidity as real) * (PerLiquidity1(b) - PerLiquidity1(a)) >= amount as real
  {
    hide PerLiquidity1;
    Q96Positive();
    var q, l := Q96 as real, liquidity as real;
    PerLiquidity1Def(a);
    PerLiquidity1Def(b);
    var x, y := PerLiquidity1(a), PerLiquidity1(b);
    assert l * (y - x) * q == l * (y * q - x * q);
    assert (liquidity * (b - a)) as real == l * (b as real - a as real);
    assert (amount * Q96) as real == (amount as real) * q;
    CancelReal(l * (y - x), amount as real, q);
    CancelReal(amount as real, l * (y - x), q);
  }

  lemma PerLiquidity1Def(p: Price)
    ensures PerLiquidity1(p) * (Q96 as real) == p as real
  {
    Q96Positive();
    RealQuotient(p as real, Q96 as real, PerLiquidity1(p));
  }

  // ------------------------------------------------------------ price moves

  /** Both prices lie inside the range when the position is active, and on the same outer side when not. */
  ghost predicate SameSide(grid: Grid, k: PositionKey, tick: int, p: Price, p': Price) {
    var low, high := grid(k.lower), grid(k.upper);
    if IsActive(tick, k) then low <= p <= high && low <= p' <= high
    else (p <= low && p' <= low) || (high <= p && high <= p')
  }

  /** At constant liquidity the total worth changes by the active liquidity times the change per unit. */
  lemma WorthMoves(grid: Grid, m: Positions, spacing: Spacing, tick: int, p: Price, p': Price, token0: bool)
    requires KeysOk(m, spacing)
    requires forall k :: k in m && m[k].liquidity > 0 ==> SameSide(grid, k, tick, p, p')
    ensures TotalWorth(grid, m, p', token0)
         == TotalWorth(grid, m, p, token0) + PerLiquidityChange(p, p', token0) * (ActiveAt(m, tick) as real)
  {
    hide *;
    var d := PerLiquidityChange(p, p', token0);
    var f, g, h := WorthPart(grid, m, p', token0), WorthPart(grid, m, p, token0), ActivePart(m, tick);
    forall k | k in m.Keys
      ensures f(k) == g(k) + d * (h(k) as real)
    {
      OrderedKey(m, spacing, k);
      WorthMovesAt(grid, m, k, tick, p, p', token0);
    }
    SumRealAffine(m.Keys, f, g, h, d);
    TotalsAreSums(grid, m, p, token0, tick);
    TotalsAreSums(grid, m, p', token0, tick);
  }

  lemma OrderedKey(m: Positions, spacing: Spacing, k: PositionKey)
    requires KeysOk(m, spacing) && k in m
    ensures k.lower < k.upper
  {
  }

  lemma TotalsAreSums(grid: Grid, m: Positions, p: Price, token0: bool, tick: int)
    ensures TotalWorth(grid, m, p, token0) == SumReal(m.Keys, WorthPart(grid, m, p, token0))
    ensures ActiveAt(m, tick) == Sum(m.Keys, ActivePart(m, tick))
  {
  }

  lemma WorthMovesAt(grid: Grid, m: Positions, k: PositionKey, tick: int, p: Price, p': Price, token0: bool)
    requires k in m && k.lower < k.upper
    requires m[k].liquidity > 0 ==> SameSide(grid, k, tick, p, p')
    ensures WorthPart(grid, m, p', token0)(k)
         == WorthPart(grid, m, p, token0)(k) + PerLiquidityChange(p, p', token0) * (ActivePart(m, tick)(k) as real)
  {
    hide *;
    var low, high := grid(k.lower), grid(k.upper);
    var l, active := LiquidityOf(m, k), IsActive(tick, k);
    PartsAt(grid, m, k, tick, p, p', token0);
    WorthDef(grid, k, l, p, token0);
    WorthDef(grid, k, l, p', token0);
    ClampedOnSameSide(grid, k, tick, p, p');
    if l == 0 {
      NothingWorth(PerLiquidityChange(p, p', token0));
    } else if active {
      Telescope(l as real, PerLiquidity(p', token0), PerLiquidity(p, token0),
                PerLiquidity(if token0 then high else low, token0));
    } else {
      NothingWorth(PerLiquidityChange(p, p', token0));
    }
  }

  lemma PartsAt(grid: Grid, m: Positions, k: PositionKey, tick: int, p: Price, p': Price, token0: bool)
    requires k in m
    ensures WorthPart(grid, m, p, token0)(k) == Worth(grid, k, LiquidityOf(m, k), p, token0)
    ensures WorthPart(grid, m, p', token0)(k) == Worth(grid, k, LiquidityOf(m, k), p', token0)
    ensures ActivePart(m, tick)(k) == (if IsActive(tick, k) then LiquidityOf(m, k) else 0)
    ensures LiquidityOf(m, k) == m[k].liquidity
    ensures PerLiquidityChange(p, p', token0) == PerLiquidity(p', token0) - PerLiquidity(p, token0)
  {
    hide PerLiquidity, Worth, IsGrid;
  }

  lemma WorthDef(grid: Grid, k: PositionKey, liquidity: int, p: Price, token0: bool)
    ensures var low, high := grid(k.lower), grid(k.upper);
            Worth(grid, k, liquidity, p, token0)
            == (liquidity as real) * (PerLiquidity(ClampPrice(p, low, high), token0)
                                      - PerLiquidity(if token0 then high else low, token0))
  {
    hide PerLiquidity, ClampPrice, IsGrid;
  }

  lemma ClampedOnSameSide(grid: Grid, k: PositionKey, tick: int, p: Price, p': Price)
    requires k.lower < k.upper
    ensures SameSide(grid, k, tick, p, p') ==>
              var low, high := grid(k.lower), grid(k.upper);
              if IsActive(tick, k) then ClampPrice(p, low, high) == p && ClampPrice(p', low, high) == p'
              else ClampPrice(p, low, high) == ClampPrice(p', low, high)
  {
    hide IsGrid;
    GridMono(grid, k.lower, k.upper);
  }

  lemma NothingWorth(x: real)
    ensures x * (0 as real) == 0.0 && (0 as real) * x == 0.0
  {
  }

  lemma Telescope(l: real, x': real, x: real, y: real)
    ensures l * (x' - y) == l * (x - y) + (x' - x) * l
  {
  }

  /** A move up to its target keeps every range whose ends it does not pass on its side. */
  lemma DownSides(grid: Grid, k: PositionKey, tick: TickIndex, t: TickIndex, p: Price, p': Price)
    requires k.lower < k.upper && Bracket(grid, tick, p) && grid(t) <= p' <= p && t <= tick
    requires !(t < k.lower <= tick) && !(t < k.upper <= tick)
    ensures SameSide(grid, k, tick, p, p')
  {
    hide IsGrid;
    GridMono(grid, k.lower, k.upper);
    GridMono(grid, k.lower, t);
    GridMono(grid, k.upper, t);
    if tick < MAX_TICK {
      GridMono(grid, tick + 1, k.upper);
      GridMono(grid, tick + 1, k.lower);
    }
  }

  lemma UpSides(grid: Grid, k: PositionKey, tick: TickIndex, t: TickIndex, p: Price, p': Price)
    requires k.lower < k.upper && Bracket(grid, tick, p) && p <= p' <= grid(t) && tick < t
    requires !(tick < k.lower < t) && !(tick < k.upper < t)
    ensures SameSide(grid, k, tick, p, p')
  {
    hide IsGrid;
    GridMono(grid, k.lower, k.upper);
    GridMono(grid, t, k.upper);
    GridMono(grid, t, k.lower);
    GridMono(grid, k.lower, tick);
    GridMono(grid, k.upper, tick);
  }

  /** During one iteration every position with liquidity stays on its side. */
  lemma StepSides(env: Env, s: Loop, m: Positions, k: PositionKey)
    requires LoopOk(env, s) && !Done(env, s) && StepOnce(env, s).Reached?
    requires Reconciled(s.ticks, m) && KeysOk(m, env.spacing) && k in m && m[k].liquidity > 0
    ensures SameSide(env.grid, k, s.tick, s.price, StepOnce(env, s).loop.price)
  {
    hide NextTarget, IsGrid, StepOnce, Reconciled, Aligned, Bracket, SameSide, KeysInRange;
    TargetSide(env, s);
    EndsAreStored(s.ticks, m, k);
    BracketRange(env.grid, s.tick, s.price);
    StepStaysWithinTarget(env, s);
    var t := NextTarget(env, s).tick;
    if env.zeroForOne {
      DownSides(env.grid, k, s.tick, t, s.price, StepOnce(env, s).loop.price);
    } else {
      UpSides(env.grid, k, s.tick, t, s.price, StepOnce(env, s).loop.price);
    }
  }

  lemma StepStaysWithinTarget(env: Env, s: Loop)
    requires LoopOk(env, s) && !Done(env, s) && StepOnce(env, s).Reached?
    ensures var p := env.grid(NextTarget(env, s).tick);
            var next := StepOnce(env, s).loop.price;
            if env.zeroForOne then p <= next <= s.price else s.price <= next <= p
  {
    hide NextTarget, IsGrid, Charge, CoversAmount0, CoversAmount1, WithinAmount0, WithinAmount1, TickAt, Cross;
    var target, step, charged := StepAnatomy(env, s);
    TargetPriceSide(env, s);
  }

  /** Net principal paid in so far by the trader, in one token. */
  function NetPrincipal(env: Env, totals: Totals, token0: bool): int {
    if token0 == env.zeroForOne then totals.amountIn else 0 - totals.amountOut
  }

  /** One iteration pays in at least what the positions gain, in both tokens. */
  lemma StepSolvent(env: Env, s: Loop, m: Positions, token0: bool)
    requires LoopOk(env, s) && !Done(env, s) && StepOnce(env, s).Reached?
    requires LoopReconciled(m, env.spacing, s)
    ensures var s' := StepOnce(env, s).loop;
            TotalWorth(env.grid, m, s'.price, token0) - TotalWorth(env.grid, m, s.price, token0)
            <= (NetPrincipal(env, s'.totals, token0) - NetPrincipal(env, s.totals, token0)) as real
  {
    hide *;
    NotDone(env, s);
    var s' := StepOnce(env, s).loop;
    ReconciledParts(m, env.spacing, s);
    forall k | k in m && m[k].liquidity > 0
      ensures SameSide(env.grid, k, s.tick, s.price, s'.price)
    {
      StepSides(env, s, m, k);
    }
    WorthMoves(env.grid, m, env.spacing, s.tick, s.price, s'.price, token0);
    var target, step, charged := StepAnatomy(env, s);
    TargetPriceSideOf(env, s, target);
    StepTotals(env, s, target, step, charged, token0);
    AmountsAgainstWorth(env, s, target, step, token0);
  }

  lemma ReconciledParts(m: Positions, spacing: Spacing, s: Loop)
    requires LoopReconciled(m, spacing, s)
    ensures KeysOk(m, spacing) && Reconciled(s.ticks, m) && Capped(s.ticks, spacing)
    ensures s.liquidity == ActiveAt(m, s.tick)
  {
  }

  /** A step moves the price to its end and adds its amounts to the totals. */
  lemma StepTotals(env: Env, s: Loop, target: Target, step: SwapStep, charged: Loop, token0: bool)
    requires target.initialized ==> target.tick in s.ticks
    requires Charge(env, s, step) == Ok(charged)
    requires Advance(env, s, target, step, charged).Reached?
    ensures var s' := Advance(env, s, target, step, charged).loop;
            && s'.price == step.next
            && NetPrincipal(env, s'.totals, token0) - NetPrincipal(env, s.totals, token0)
               == (if token0 == env.zeroForOne then step.amountIn else 0 - step.amountOut)
  {
    hide TickAt, Cross, Grow, Settle;
  }

  lemma TargetPriceSideOf(env: Env, s: Loop, target: Target)
    requires LoopOk(env, s) && !Done(env, s) && target == NextTarget(env, s)
    ensures var price := PriceTarget(env.zeroForOne, env.grid(target.tick), env.limit);
            if env.zeroForOne then price <= s.price else s.price <= price
  {
    TargetPriceSide(env, s);
  }

  lemma AmountsAgainstWorth(env: Env, s: Loop, target: Target, step: SwapStep, token0: bool)
    requires var price := PriceTarget(env.zeroForOne, env.grid(target.tick), env.limit);
             && StepSound(s.price, price, s.liquidity, s.remaining, env.fee, step)
             && (if env.zeroForOne then price <= s.price else s.price <= price)
    ensures PerLiquidityChange(s.price, step.next, token0) * (s.liquidity as real)
         <= (if token0 == env.zeroForOne then step.amountIn else 0 - step.amountOut) as real
  {
    hide PerLiquidity0, PerLiquidity1, CoversAmount0, CoversAmount1, WithinAmount0, WithinAmount1, PriceTarget, IsGrid;
    AmountsAgainstMove(env.zeroForOne, s.price, step.next, s.liquidity, step.amountIn, step.amountOut, token0);
  }

  /** Rounded amounts against the exact change of worth of the move, in one token. */
  lemma AmountsAgainstMove(zeroForOne: bool, from: Price, to: Price, liquidity: nat, amountIn: nat, amountOut: nat,
                           token0: bool)
    requires zeroForOne ==> CoversAmount0(amountIn, to, from, liquidity)
                            && WithinAmount1(amountOut, to, from, liquidity)
    requires !zeroForOne ==> CoversAmount1(amountIn, from, to, liquidity)
                             && WithinAmount0(amountOut, from, to, liquidity)
    ensures PerLiquidityChange(from, to, token0) * (liquidity as real)
         <= (if token0 == zeroForOne then amountIn else 0 - amountOut) as real
  {
    hide PerLiquidity0, PerLiquidity1, CoversAmount0, CoversAmount1, WithinAmount0, WithinAmount1;
    var l := liquidity as real;
    SignFlip(l, PerLiquidity0(to), PerLiquidity0(from));
    SignFlip(l, PerLiquidity1(to), PerLiquidity1(from));
    if zeroForOne {
      RealCovers0(amountIn, to, from, liquidity);
      RealCovers1(amountOut, to, from, liquidity);
    } else {
      RealCovers1(amountIn, from, to, liquidity);
      RealCovers0(amountOut, from, to, liquidity);
    }
  }

  lemma SignFlip(l: real, x: real, y: real)
    ensures (x - y) * l == l * (x - y) == -(l * (y - x))
  {
  }

  /** A whole run pays in at least what the positions gain. */
  lemma {:induction false} RunSolvent(env: Env, s: Loop, m: Positions, token0: bool)
    requires LoopOk(env, s) && Run(env, s).Reached? && LoopReconciled(m, env.spacing, s)
    ensures var f := Run(env, s).loop;
            && LoopReconciled(m, env.spacing, f)
            && TotalWorth(env.grid, m, f.price, token0) - TotalWorth(env.grid, m, s.price, token0)
               <= (NetPrincipal(env, f.totals, token0) - NetPrincipal(env, s.totals, token0)) as real
    decreases Distance(env, s)
  {
    hide StepOnce, TotalWorth, Bracket, LoopReconciled, NetPrincipal;
    if !Done(env, s) {
      StepProgress(env, s);
      StepReconciled(env, s, m);
      StepSolvent(env, s, m, token0);
      RunSolvent(env, StepOnce(env, s).loop, m, token0);
    }
  }
}
