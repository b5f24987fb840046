/**
  Fee growth inside a range, and fee solvency: what the positions have accrued
  never exceeds the LP fees charged.
*/
module FeeGrowth {
  import opened Arith
  import opened Words
  import opened SqrtPriceMath
  import opened SwapMath
  import opened Fees
  import opened PoolTypes
  import opened PoolSpec
  import opened Sums
  import opened Reconciliation
  import opened ActiveLiquidity
  import opened SwapSpec
  import opened Traversal

  // ------------------------------------------------- growth inside a range

  function WrappingAdd(a: U256, b: U256): U256 {
    if a + b < W256 then a + b else a + b - W256
  }

  /** The growth inside is the global one less what grew below the range and what grew above it, modulo 2^256. */
  lemma InsideIsTheRest(tick: int, global: U256, lower: int, upper: int, low: U256, high: U256)
    requires lower < upper
    ensures var below := if lower <= tick then low else global - low;
            var above := if tick < upper then high else global - high;
            FeeGrowthInside(tick, global, lower, upper, low, high) == (global - below - above) % W256
  {
    var below := if lower <= tick then low else global - low;
    var above := if tick < upper then high else global - high;
    var rest := global - below - above;
    var wraps := if rest >= 0 then 0 else if rest >= 0 - W256 then 1 else 2;
    DivModUniqueInt(rest, W256, 0 - wraps, rest + wraps * W256);
  }

  /** `fee_growth_inside` read from the tick map, in one token. */
  function Inside(tick: int, global: U256, ticks: Ticks, k: PositionKey, token0: bool): U256 {
    FeeGrowthInside(tick, global, k.lower, k.upper, OutsideAt(ticks, k.lower, token0),
                    OutsideAt(ticks, k.upper, token0))
  }

  /** Growth of the global value adds exactly that growth inside an active range, and nothing elsewhere. */
  lemma GlobalGrowthInside(tick: int, global: U256, added: nat, ticks: Ticks, k: PositionKey, token0: bool)
    requires global + added < W256 && k.lower < k.upper
    ensures Inside(tick, global + added, ticks, k, token0)
         == if IsActive(tick, k) then WrappingAdd(Inside(tick, global, ticks, k, token0), added)
            else Inside(tick, global, ticks, k, token0)
  {
  }

  /** A crossed tick: its outside growth is reflected at the global growth, in one token. */
  ghost predicate Flipped(ticks: Ticks, ticks': Ticks, t: int, global: U256, token0: bool) {
    && (forall x :: x in ticks <==> x in ticks')
    && (forall x :: x in ticks && x != t ==> Outside(ticks'[x], token0) == Outside(ticks[x], token0))
    && (t in ticks ==> Outside(ticks'[t], token0) == WrappingSub(global, Outside(ticks[t], token0)))
  }

  /** On the numbers: the ends at t are reflected, and the tick moves over t and over no other end. */
  lemma FlipAndMoveCancel(zeroForOne: bool, from: int, to: int, t: int, global: U256, k: PositionKey, low: U256,
                          high: U256)
    requires k.lower < k.upper
    requires Passes(zeroForOne, from, to, k.lower) <==> k.lower == t
    requires Passes(zeroForOne, from, to, k.upper) <==> k.upper == t
    requires if zeroForOne then to <= from else from <= to
    ensures FeeGrowthInside(to, global, k.lower, k.upper, if t == k.lower then WrappingSub(global, low) else low,
                            if t == k.upper then WrappingSub(global, high) else high)
         == FeeGrowthInside(from, global, k.lower, k.upper, low, high)
  {
  }

  /** Crossing a tick leaves the growth inside every range unchanged: the flip and the tick move cancel. */
  lemma CrossingKeepsInside(zeroForOne: bool, from: int, to: int, t: int, global: U256, ticks: Ticks, ticks': Ticks,
                            k: PositionKey, token0: bool)
    requires k.lower < k.upper && k.lower in ticks && k.upper in ticks && t in ticks
    requires Flipped(ticks, ticks', t, global, token0)
    requires forall x :: x in ticks ==> (Passes(zeroForOne, from, to, x) <==> x == t)
    requires if zeroForOne then to <= from else from <= to
    ensures Inside(to, global, ticks', k, token0) == Inside(from, global, ticks, k, token0)
  {
    hide FeeGrowthInside, WrappingSub, Outside;
    assert Passes(zeroForOne, from, to, k.lower) <==> k.lower == t;
    assert Passes(zeroForOne, from, to, k.upper) <==> k.upper == t;
    var (low, high) := (Outside(ticks[k.lower], token0), Outside(ticks[k.upper], token0));
    FlipAndMoveCancel(zeroForOne, from, to, t, global, k, low, high);
  }

  /**
    A flip without the tick move, as a failed swap can leave behind, changes the
    growth inside every range that ends on the tick, unless it flips the outside
    growth to itself.
  */
  lemma FlipAloneMovesInside(tick: int, t: int, flippedAt: U256, global: U256, ticks: Ticks, ticks': Ticks,
                             k: PositionKey, token0: bool)
    requires k.lower < k.upper && k.lower in ticks && k.upper in ticks && (t == k.lower || t == k.upper)
    requires Flipped(ticks, ticks', t, flippedAt, token0)
    ensures Inside(tick, global, ticks', k, token0) == Inside(tick, global, ticks, k, token0)
            <==> WrappingSub(flippedAt, Outside(ticks[t], token0)) == Outside(ticks[t], token0)
  {
    hide FeeGrowthInside, WrappingSub, Outside;
    var (low, high) := (Outside(ticks[k.lower], token0), Outside(ticks[k.upper], token0));
    var flipped := WrappingSub(flippedAt, Outside(ticks[t], token0));
    if t == k.lower {
      InsideByLower(tick, global, k, low, flipped, high);
    } else {
      InsideByUpper(tick, global, k, low, high, flipped);
    }
  }

  /** Different outside growth at one end means different growth inside. */
  lemma InsideByLower(tick: int, global: U256, k: PositionKey, low: U256, low': U256, high: U256)
    ensures (FeeGrowthInside(tick, global, k.lower, k.upper, low, high)
             == FeeGrowthInside(tick, global, k.lower, k.upper, low', high)) <==> low == low'
  {
  }

  lemma InsideByUpper(tick: int, global: U256, k: PositionKey, low: U256, high: U256, high': U256)
    ensures (FeeGrowthInside(tick, global, k.lower, k.upper, low, high)
             == FeeGrowthInside(tick, global, k.lower, k.upper, low, high')) <==> high == high'
  {
  }

  /** Moving the tick without passing a stored tick changes nothing inside. */
  lemma MovingKeepsInside(zeroForOne: bool, from: int, to: int, global: U256, ticks: Ticks, k: PositionKey,
                          token0: bool)
    requires k.lower < k.upper && k.lower in ticks && k.upper in ticks
    requires forall x :: x in ticks ==> !Passes(zeroForOne, from, to, x)
    requires if zeroForOne then to <= from else from <= to
    ensures Inside(to, global, ticks, k, token0) == Inside(from, global, ticks, k, token0)
  {
    assert !Passes(zeroForOne, from, to, k.lower);
    assert !Passes(zeroForOne, from, to, k.upper);
  }

  // ------------------------------------------------------- one iteration

  function LoopGrowth(env: Env, s: Loop, token0: bool): U256 {
    if token0 == env.zeroForOne then s.growth else env.otherGrowth
  }

  ghost function LoopInside(env: Env, s: Loop, k: PositionKey, token0: bool): U256 {
    Inside(s.tick, LoopGrowth(env, s, token0), s.ticks, k, token0)
  }

  lemma CrossFlips(env: Env, ticks: Ticks, t: int, growth: U256, token0: bool)
    requires t in ticks && env.mutate
    ensures Flipped(ticks, Cross(env, ticks, t, growth), t,
                    if token0 == env.zeroForOne then growth else env.otherGrowth, token0)
  {
  }

  lemma ChargeGrowth(env: Env, s: Loop, step: SwapStep)
    requires Charge(env, s, step).Ok? && s.liquidity > 0
    ensures var c := Charge(env, s, step).value;
            && s.growth <= c.growth
            && s.totals.lpFees <= c.totals.lpFees
            && (c.growth - s.growth) * s.liquidity <= W128 * (c.totals.lpFees - s.totals.lpFees)
            && c.ticks == s.ticks && c.tick == s.tick && c.liquidity == s.liquidity
  {
    hide Settle, Div;
    var (lpFee, cut) := ProtocolSplit(step.amountIn, step.fee, env.fee, env.protocolPips).value;
    MulNonNegative(lpFee, W128);
    FloorBounds(lpFee * W128, s.liquidity);
  }

  /**
    An iteration moves the growth inside every stored range by exactly the
    growth it adds, and only for the input token and only when the range is
    active.
  */
  lemma StepInside(env: Env, s: Loop, k: PositionKey, token0: bool)
    requires LoopOk(env, s) && !Done(env, s) && StepOnce(env, s).Reached? && env.mutate
    requires k.lower < k.upper && k.lower in s.ticks && k.upper in s.ticks
    ensures var s' := StepOnce(env, s).loop;
            && s.growth <= s'.growth
            && LoopInside(env, s', k, token0)
               == if token0 == env.zeroForOne && IsActive(s.tick, k)
                  then WrappingAdd(LoopInside(env, s, k, token0), s'.growth - s.growth)
                  else LoopInside(env, s, k, token0)
  {
    hide *;
    NotDone(env, s);
    var target, step, charged := StepAnatomy(env, s);
    StepCrosses(env, s);
    ChargeGrowth(env, s, step);
    AdvanceTicks(env, s, target, step, charged);
    var s' := StepOnce(env, s).loop;
    ChargedInside(env, s, charged, k, token0);
    var global := LoopGrowth(env, charged, token0);
    LoopInsideDef(env, s', charged, s, k, token0);
    if Crosses(env, target, s'.price) {
      CrossesInitialized(env, target, s'.price);
      CrossFlips(env, s.ticks, target.tick, charged.growth, token0);
      CrossingKeepsInside(env.zeroForOne, s.tick, s'.tick, target.tick, global, s.ticks, s'.ticks, k, token0);
    } else {
      MovingKeepsInside(env.zeroForOne, s.tick, s'.tick, global, s.ticks, k, token0);
    }
  }

  lemma CrossesInitialized(env: Env, target: Target, next: Price)
    requires Crosses(env, target, next)
    ensures target.initialized
  {
  }

  lemma LoopInsideDef(env: Env, s': Loop, charged: Loop, s: Loop, k: PositionKey, token0: bool)
    requires s'.growth == charged.growth && charged.tick == s.tick && charged.ticks == s.ticks
    ensures var global := LoopGrowth(env, charged, token0);
            && LoopInside(env, s', k, token0) == Inside(s'.tick, global, s'.ticks, k, token0)
            && LoopInside(env, charged, k, token0) == Inside(s.tick, global, s.ticks, k, token0)
            && global == if token0 == env.zeroForOne then charged.growth else env.otherGrowth
  {
  }

  /** Advancing keeps the growth, and flips the target tick iff it is crossed. */
  lemma AdvanceTicks(env: Env, s: Loop, target: Target, step: SwapStep, charged: Loop)
    requires target.initialized ==> target.tick in s.ticks
    requires charged.ticks == s.ticks
    requires Advance(env, s, target, step, charged).Reached?
    ensures var s' := Advance(env, s, target, step, charged).loop;
            && s'.growth == charged.growth
            && s'.totals.lpFees == charged.totals.lpFees
            && s'.ticks == (if Crosses(env, target, s'.price) then Cross(env, s.ticks, target.tick, charged.growth)
                            else s.ticks)
  {
    hide TickAt, Cross;
  }

  /** Charging a step adds its growth inside the active ranges of the input token. */
  lemma ChargedInside(env: Env, s: Loop, charged: Loop, k: PositionKey, token0: bool)
    requires s.growth <= charged.growth && charged.ticks == s.ticks && charged.tick == s.tick && k.lower < k.upper
    ensures LoopInside(env, charged, k, token0)
         == if token0 == env.zeroForOne && IsActive(s.tick, k)
            then WrappingAdd(LoopInside(env, s, k, token0), charged.growth - s.growth)
            else LoopInside(env, s, k, token0)
  {
    hide Inside, IsActive;
    if token0 == env.zeroForOne {
      GlobalGrowthInside(s.tick, s.growth, charged.growth - s.growth, s.ticks, k, token0);
    }
  }

  // ---------------------------------------------------------- fee solvency

  /** Growth inside a position's range since its last checkpoint, modulo 2^256. */
  function Accrued(tick: int, global: U256, ticks: Ticks, m: Positions, k: PositionKey, token0: bool): U256 {
    if k in m then WrappingSub(Inside(tick, global, ticks, k, token0), Last(m[k], token0)) else 0
  }

  ghost function AccruedPart(tick: int, global: U256, ticks: Ticks, m: Positions, token0: bool): PositionKey -> int {
    (k: PositionKey) => LiquidityOf(m, k) * Accrued(tick, global, ticks, m, k, token0)
  }

  /** What all positions have accrued and not yet been paid, in units of 2^-128. */
  ghost function TotalAccrued(tick: int, global: U256, ticks: Ticks, m: Positions, token0: bool): int {
    Sum(m.Keys, AccruedPart(tick, global, ticks, m, token0))
  }

  ghost function LoopAccrued(env: Env, s: Loop, m: Positions, token0: bool): int {
    TotalAccrued(s.tick, LoopGrowth(env, s, token0), s.ticks, m, token0)
  }

  /** LP fees an operation charged in one token. */
  function LpFees(env: Env, totals: Totals, token0: bool): nat {
    if token0 == env.zeroForOne then totals.lpFees else 0
  }

  lemma AccruedGrows(inside: U256, last: U256, added: U256)
    ensures WrappingSub(WrappingAdd(inside, added), last) <= WrappingSub(inside, last) + added
  {
  }

  /** One position during one iteration. */
  lemma StepAccruedAt(env: Env, s: Loop, m: Positions, k: PositionKey, token0: bool)
    requires LoopOk(env, s) && !Done(env, s) && StepOnce(env, s).Reached? && env.mutate
    requires Reconciled(s.ticks, m) && KeysOk(m, env.spacing) && k in m
    ensures var s' := StepOnce(env, s).loop;
            var added := if token0 == env.zeroForOne then s'.growth - s.growth else 0;
            && s.growth <= s'.growth
            && AccruedPart(s'.tick, LoopGrowth(env, s', token0), s'.ticks, m, token0)(k)
               <= AccruedPart(s.tick, LoopGrowth(env, s, token0), s.ticks, m, token0)(k)
                  + added * ActivePart(m, s.tick)(k)
  {
    hide *;
    NotDone(env, s);
    StepGrowth(env, s);
    var s' := StepOnce(env, s).loop;
    var added := if token0 == env.zeroForOne then s'.growth - s.growth else 0;
    var before := Accrued(s.tick, LoopGrowth(env, s, token0), s.ticks, m, k, token0);
    var after := Accrued(s'.tick, LoopGrowth(env, s', token0), s'.ticks, m, k, token0);
    AccruedParts(env, s, m, k, token0);
    AccruedParts(env, s', m, k, token0);
    var l, active := m[k].liquidity, IsActive(s.tick, k);
    if l > 0 {
      EndsAreStored(s.ticks, m, k);
      OrderedKeys(m, env.spacing, k);
      StepInside(env, s, k, token0);
      AccruedGrows(LoopInside(env, s, k, token0), Last(m[k], token0), added);
      ScaleAccrued(l, before, after, added, active);
    } else {
      ZeroTimes(before, after, added);
    }
  }

  lemma ZeroTimes(a: int, b: int, c: int)
    ensures 0 * a == 0 && 0 * b == 0 && c * 0 == 0
  {
  }

  lemma AccruedParts(env: Env, s: Loop, m: Positions, k: PositionKey, token0: bool)
    requires k in m
    ensures var accrued := Accrued(s.tick, LoopGrowth(env, s, token0), s.ticks, m, k, token0);
            && accrued == WrappingSub(LoopInside(env, s, k, token0), Last(m[k], token0))
            && AccruedPart(s.tick, LoopGrowth(env, s, token0), s.ticks, m, token0)(k) == m[k].liquidity * accrued
    ensures ActivePart(m, s.tick)(k) == if IsActive(s.tick, k) then m[k].liquidity else 0
  {
    hide Inside, WrappingSub;
  }

  lemma StepGrowth(env: Env, s: Loop)
    requires LoopOk(env, s) && !Done(env, s) && StepOnce(env, s).Reached?
    ensures s.growth <= StepOnce(env, s).loop.growth
    ensures s.totals.lpFees <= StepOnce(env, s).loop.totals.lpFees
    ensures (StepOnce(env, s).loop.growth - s.growth) * s.liquidity
         <= W128 * (StepOnce(env, s).loop.totals.lpFees - s.totals.lpFees)
  {
    hide *;
    NotDone(env, s);
    var target, step, charged := StepAnatomy(env, s);
    ChargeGrowth(env, s, step);
    AdvanceTicks(env, s, target, step, charged);
  }

  lemma OrderedKeys(m: Positions, spacing: Spacing, k: PositionKey)
    requires KeysOk(m, spacing) && k in m
    ensures k.lower < k.upper
  {
  }

  lemma ScaleAccrued(l: nat, before: int, after: int, added: int, active: bool)
    requires after <= before + (if active then added else 0)
    ensures l * after <= l * before + added * (if active then l else 0)
  {
    MulMono(after, before + (if active then added else 0), l);
    assert l * (before + added) == l * before + added * l;
  }

  /** One iteration: what the positions accrue is covered by the LP fees it charges. */
  lemma StepAccrued(env: Env, s: Loop, m: Positions, token0: bool)
    requires LoopOk(env, s) && !Done(env, s) && StepOnce(env, s).Reached? && env.mutate
    requires LoopReconciled(m, env.spacing, s)
    ensures var s' := StepOnce(env, s).loop;
            LoopAccrued(env, s', m, token0) - LoopAccrued(env, s, m, token0)
            <= W128 * (LpFees(env, s'.totals, token0) - LpFees(env, s.totals, token0))
  {
    hide LoopOk, StepOnce, Inside, Reconciled, KeysOk, Capped, AccruedPart, Accrued, ActivePart, Done, LoopGrowth,
         ActiveAt;
    NotDone(env, s);
    StepGrowth(env, s);
    var s' := StepOnce(env, s).loop;
    var added := if token0 == env.zeroForOne then s'.growth - s.growth else 0;
    var f := AccruedPart(s'.tick, LoopGrowth(env, s', token0), s'.ticks, m, token0);
    var g := AccruedPart(s.tick, LoopGrowth(env, s, token0), s.ticks, m, token0);
    forall k | k in m.Keys
      ensures f(k) <= g(k) + added * ActivePart(m, s.tick)(k)
    {
      StepAccruedAt(env, s, m, k, token0);
    }
    SumAffineAtMost(m.Keys, f, g, ActivePart(m, s.tick), added);
    ActiveIs(m, s.tick);
    CoveredByFee(added, s.liquidity, if token0 == env.zeroForOne then s'.totals.lpFees - s.totals.lpFees else 0, W128);
  }

  lemma ActiveIs(m: Positions, tick: int)
    ensures Sum(m.Keys, ActivePart(m, tick)) == ActiveAt(m, tick)
  {
  }

  lemma CoveredByFee(added: int, liquidity: int, fee: int, w: int)
    ensures added == 0 && fee == 0 ==> added * liquidity <= w * fee
  {
  }

  /** A whole run. */
  lemma {:induction false} RunAccrued(env: Env, s: Loop, m: Positions, token0: bool)
    requires LoopOk(env, s) && Run(env, s).Reached? && env.mutate && LoopReconciled(m, env.spacing, s)
    ensures var f := Run(env, s).loop;
            LoopAccrued(env, f, m, token0) - LoopAccrued(env, s, m, token0)
            <= W128 * (LpFees(env, f.totals, token0) - LpFees(env, s.totals, token0))
    decreases Distance(env, s)
  {
    hide StepOnce, LoopAccrued, Bracket, LoopReconciled, LpFees;
    if !Done(env, s) {
      StepProgress(env, s);
      StepReconciled(env, s, m);
      StepAccrued(env, s, m, token0);
      RunAccrued(env, StepOnce(env, s).loop, m, token0);
      var s', f := StepOnce(env, s).loop, Run(env, s).loop;
      Telescoped(LpFees(env, f.totals, token0), LpFees(env, s'.totals, token0), LpFees(env, s.totals, token0), W128);
    }
  }

  lemma Telescoped(c: int, b: int, a: int, w: int)
    ensures w * (c - b) + w * (b - a) == w * (c - a)
  {
  }
}
