/**
  The other side of fee solvency: positions are credited with what is charged.
  A step's LP fee reaches the positions up to the rounding of its growth, a
  payment up to the rounding of one position's share, and nothing else is kept.
*/
module FeeCompleteness {
  import opened Arith
  import opened Words
  import opened SwapMath
  import opened Fees
  import opened PoolTypes
  import opened PoolSpec
  import opened Sums
  import opened Reconciliation
  import opened ActiveLiquidity
  import opened SwapSpec
  import opened Traversal
  import opened FeeGrowth
  import opened ModifyEffects
  import opened SwapCall
  import opened Histories

  // ---------------------------------------------------------- one iteration

  /** Growth inside a range since a checkpoint never exceeds all global growth, so it has not wrapped. */
  ghost predicate Unwrapped(tick: int, global: U256, ticks: Ticks, m: Positions, token0: bool) {
    forall k :: k in m && m[k].liquidity > 0 ==> Accrued(tick, global, ticks, m, k, token0) <= global
  }

  ghost predicate LoopUnwrapped(env: Env, s: Loop, m: Positions, token0: bool) {
    Unwrapped(s.tick, LoopGrowth(env, s, token0), s.ticks, m, token0)
  }

  lemma AccruedGrowsExactly(inside: U256, last: U256, added: U256)
    requires WrappingSub(inside, last) + added < W256
    ensures WrappingSub(WrappingAdd(inside, added), last) == WrappingSub(inside, last) + added
  {
  }

  /** One position during one iteration, exactly. */
  lemma StepAccruesAt(env: Env, s: Loop, m: Positions, k: PositionKey, token0: bool)
    requires LoopOk(env, s) && !Done(env, s) && StepOnce(env, s).Reached? && env.mutate
    requires Reconciled(s.ticks, m) && KeysOk(m, env.spacing) && k in m
    requires m[k].liquidity > 0 ==>
               Accrued(s.tick, LoopGrowth(env, s, token0), s.ticks, m, k, token0) <= LoopGrowth(env, s, token0)
    ensures var s' := StepOnce(env, s).loop;
            var added := if token0 == env.zeroForOne then s'.growth - s.growth else 0;
            && s.growth <= s'.growth
            && AccruedPart(s'.tick, LoopGrowth(env, s', token0), s'.ticks, m, token0)(k)
               == AccruedPart(s.tick, LoopGrowth(env, s, token0), s.ticks, m, token0)(k)
                  + added * ActivePart(m, s.tick)(k)
            && (m[k].liquidity > 0 ==>
                  Accrued(s'.tick, LoopGrowth(env, s', token0), s'.ticks, m, k, token0) <= LoopGrowth(env, s', token0))
  {
    hide *;
    NotDone(env, s);
    StepGrowth(env, s);
    var s' := StepOnce(env, s).loop;
    var added := if token0 == env.zeroForOne then s'.growth - s.growth else 0;
    var before := Accrued(s.tick, LoopGrowth(env, s, token0), s.ticks, m, k, token0);
    var after := Accrued(s'.tick, LoopGrowth(env, s', token0), s'.ticks, m, k, token0);
    AccruedParts(env, s, m, k, token0);
    AccruedParts(env, s', m, k, token0);
    LoopGrowths(env, s, s', token0);
    var l, active := m[k].liquidity, IsActive(s.tick, k);
    if l > 0 {
      EndsAreStored(s.ticks, m, k);
      OrderedKeys(m, env.spacing, k);
      StepInside(env, s, k, token0);
      AccruedGrowsExactly(LoopInside(env, s, k, token0), Last(m[k], token0), added);
      assert after == before + (if active then added else 0);
      ScaledExactly(l, before, if active then added else 0);
      ZeroTimes(l, added, added);
    } else {
      ZeroTimes(before, after, added);
    }
  }

  lemma LoopGrowths(env: Env, s: Loop, s': Loop, token0: bool)
    ensures s.growth <= s'.growth ==>
              LoopGrowth(env, s', token0)
              == LoopGrowth(env, s, token0) + (if token0 == env.zeroForOne then s'.growth - s.growth else 0)
  {
  }

  lemma ScaledExactly(l: int, a: int, b: int)
    ensures l * (a + b) == l * a + b * l
  {
  }

  /** One iteration credits exactly its growth times the active liquidity. */
  lemma StepAccruesExactly(env: Env, s: Loop, m: Positions, token0: bool)
    requires LoopOk(env, s) && !Done(env, s) && StepOnce(env, s).Reached? && env.mutate
    requires LoopReconciled(m, env.spacing, s) && LoopUnwrapped(env, s, m, token0)
    ensures var s' := StepOnce(env, s).loop;
            && LoopUnwrapped(env, s', m, token0)
            && LoopAccrued(env, s', m, token0)
               == LoopAccrued(env, s, m, token0)
                  + (if token0 == env.zeroForOne then (s'.growth - s.growth) * s.liquidity else 0)
  {
    hide LoopOk, StepOnce, Inside, Reconciled, KeysOk, Capped, AccruedPart, Accrued, ActivePart, Done, LoopGrowth;
    NotDone(env, s);
    StepGrowth(env, s);
    var s' := StepOnce(env, s).loop;
    var added := if token0 == env.zeroForOne then s'.growth - s.growth else 0;
    var f := AccruedPart(s'.tick, LoopGrowth(env, s', token0), s'.ticks, m, token0);
    var g := AccruedPart(s.tick, LoopGrowth(env, s, token0), s.ticks, m, token0);
    forall k | k in m.Keys
      ensures f(k) == g(k) + added * ActivePart(m, s.tick)(k)
      ensures m[k].liquidity > 0 ==>
                Accrued(s'.tick, LoopGrowth(env, s', token0), s'.ticks, m, k, token0) <= LoopGrowth(env, s', token0)
    {
      StepAccruesAt(env, s, m, k, token0);
    }
    SumAffine(m.Keys, f, g, ActivePart(m, s.tick), added);
    assert added * ActiveAt(m, s.tick) == added * s.liquidity;
    ZeroTimes(s.liquidity, 0, 0);
  }

  /** Growth per liquidity is rounded down: less than one unit of liquidity's worth is left over. */
  lemma ChargeShortfall(env: Env, s: Loop, step: SwapStep)
    requires Charge(env, s, step).Ok? && s.liquidity > 0
    ensures var c := Charge(env, s, step).value;
            W128 * (c.totals.lpFees - s.totals.lpFees) < (c.growth - s.growth) * s.liquidity + s.liquidity
  {
    hide Settle, Div;
    var (lpFee, cut) := ProtocolSplit(step.amountIn, step.fee, env.fee, env.protocolPips).value;
    FloorLeavesLess(W128, lpFee, s.liquidity);
  }

  lemma FloorLeavesLess(w: nat, x: nat, d: nat)
    requires d > 0
    ensures x * w >= 0 && w * x < Div(x * w, d) * d + d
  {
    hide Div;
    MulNonNegative(x, w);
    FloorBounds(x * w, d);
    var q := Div(x * w, d);
    assert (q + 1) * d == q * d + d;
  }

  lemma StepShortfall(env: Env, s: Loop)
    requires LoopOk(env, s) && !Done(env, s) && StepOnce(env, s).Reached?
    ensures var s' := StepOnce(env, s).loop;
            W128 * (s'.totals.lpFees - s.totals.lpFees) < (s'.growth - s.growth) * s.liquidity + W128
  {
    hide *;
    NotDone(env, s);
    var target, step, charged := StepAnatomy(env, s);
    ChargeGrowth(env, s, step);
    ChargeShortfall(env, s, step);
    AdvanceTicks(env, s, target, step, charged);
  }

  // ---------------------------------------------------------------- the run

  /** A run credits the positions with its LP fees, less than one token short for every iteration. */
  lemma {:induction false} RunShortfall(env: Env, s: Loop, m: Positions, token0: bool)
    requires LoopOk(env, s) && Run(env, s).Reached? && env.mutate
    requires LoopReconciled(m, env.spacing, s) && LoopUnwrapped(env, s, m, token0)
    ensures var f := Run(env, s).loop;
            && LoopUnwrapped(env, f, m, token0)
            && W128 * (LpFees(env, f.totals, token0) - LpFees(env, s.totals, token0))
               <= LoopAccrued(env, f, m, token0) - LoopAccrued(env, s, m, token0) + W128 * Iterations(env, s)
    decreases Distance(env, s)
  {
    hide StepOnce, LoopAccrued, Bracket, LoopReconciled, LoopUnwrapped, LpFees;
    if Done(env, s) {
      ZeroTimes(W128, 0, W128);
    } else {
      StepProgress(env, s);
      StepReconciled(env, s, m);
      StepCredits(env, s, m, token0);
      var s', f := StepOnce(env, s).loop, Run(env, s).loop;
      RunShortfall(env, s', m, token0);
      Telescoped(LpFees(env, f.totals, token0), LpFees(env, s'.totals, token0), LpFees(env, s.totals, token0), W128);
      OneMoreUnit(W128, Iterations(env, s'));
    }
  }

  /** One iteration credits its LP fee, less than one token short. */
  lemma StepCredits(env: Env, s: Loop, m: Positions, token0: bool)
    requires LoopOk(env, s) && !Done(env, s) && StepOnce(env, s).Reached? && env.mutate
    requires LoopReconciled(m, env.spacing, s) && LoopUnwrapped(env, s, m, token0)
    ensures var s' := StepOnce(env, s).loop;
            && LoopUnwrapped(env, s', m, token0)
            && W128 * (LpFees(env, s'.totals, token0) - LpFees(env, s.totals, token0))
               <= LoopAccrued(env, s', m, token0) - LoopAccrued(env, s, m, token0) + W128
  {
    hide StepOnce, LoopAccrued, LoopOk, LoopReconciled, LoopUnwrapped;
    StepAccruesExactly(env, s, m, token0);
    StepShortfall(env, s);
    ZeroTimes(W128, 0, W128);
    PositiveWord();
  }

  lemma OneMoreUnit(w: nat, n: nat)
    ensures w * (1 + n) == w + w * n && w * 0 == 0
  {
  }

  // ------------------------------------------------------ liquidity changes

  ghost predicate PoolUnwrapped(pool: PoolValue, token0: bool) {
    Unwrapped(pool.state.tick, Growth(pool.state, token0), pool.ticks, pool.positions, token0)
  }

  /** The touched position starts again from nothing, and was paid all it had accrued but a fraction of a token. */
  lemma TouchedExactly(grid: Grid, pool: PoolValue, spacing: Spacing, params: ModifyParams, token0: bool)
    requires PoolInv(grid, spacing, pool) && Modify(grid, pool, spacing, params).0.Ok?
    ensures var (r, pool') := Modify(grid, pool, spacing, params);
            var fee := if token0 then r.value.fee0 else r.value.fee1;
            && PoolPart(pool', token0)(params.key) == 0
            && W128 * fee <= PoolPart(pool, token0)(params.key) < W128 * fee + W128
  {
    hide *;
    ModifyAnatomy(grid, pool, spacing, params);
    TouchedAccrual(grid, pool, spacing, params, token0);
    OwedIsCharged(grid, pool, spacing, params, token0);
    OwedDef(pool, params.key, token0);
    PoolPartIs(pool, token0);
    PoolPartIs(Modify(grid, pool, spacing, params).1, token0);
    ShareBounds(PoolPart(pool, token0)(params.key));
    PositionAtIs(pool.positions, params.key);
  }

  ghost function PoolPart(pool: PoolValue, token0: bool): PositionKey -> int {
    AccruedPart(pool.state.tick, Growth(pool.state, token0), pool.ticks, pool.positions, token0)
  }

  lemma PoolPartIs(pool: PoolValue, token0: bool)
    ensures PoolPart(pool, token0)
         == AccruedPart(pool.state.tick, Growth(pool.state, token0), pool.ticks, pool.positions, token0)
  {
  }

  lemma ShareBounds(x: int)
    ensures W128 * FloorShare(x) <= x < W128 * FloorShare(x) + W128
  {
    FloorDivBounds(x, Pow2W128());
    assert FloorShare(x) * W128 == W128 * FloorShare(x);
  }

  /** A liquidity change takes off what it pays out and less than one token more. */
  lemma ModifyShortfall(grid: Grid, pool: PoolValue, spacing: Spacing, params: ModifyParams, token0: bool)
    requires PoolInv(grid, spacing, pool) && Modify(grid, pool, spacing, params).0.Ok? && PoolUnwrapped(pool, token0)
    ensures var (r, pool') := Modify(grid, pool, spacing, params);
            var fee := if token0 then r.value.fee0 else r.value.fee1;
            && PoolUnwrapped(pool', token0)
            && PoolAccruals(pool, token0) < PoolAccruals(pool', token0) + W128 * fee + W128
  {
    hide UpdateBoundaries, Reconciled, Capped, KeysOk, Modify, AccruedPart, FeesOwed, Bracket, Resized;
    var (r, pool') := Modify(grid, pool, spacing, params);
    ModifyAnatomy(grid, pool, spacing, params);
    ModifyKeepsInv(grid, pool, spacing, params);
    TouchedExactly(grid, pool, spacing, params, token0);
    var f, g := PoolPart(pool', token0), PoolPart(pool, token0);
    var m, m', key := pool.positions, pool'.positions, params.key;
    forall k | k in m.Keys && k != key
      ensures f(k) == g(k)
    {
      OthersUnchanged(pool, pool', spacing, params, k, token0);
    }
    NewKeyAccruesNothing(pool, key, token0);
    assert m'.Keys == m.Keys + {key};
    SumChange(m.Keys, m'.Keys, f, g, key);
    StaysUnwrapped(grid, pool, spacing, params, token0);
  }

  lemma StaysUnwrapped(grid: Grid, pool: PoolValue, spacing: Spacing, params: ModifyParams, token0: bool)
    requires PoolInv(grid, spacing, pool) && Modify(grid, pool, spacing, params).0.Ok? && PoolUnwrapped(pool, token0)
    ensures PoolUnwrapped(Modify(grid, pool, spacing, params).1, token0)
  {
    hide UpdateBoundaries, PoolInv, Modify, AccruedPart, FeesOwed, Resized, Accrued, Growth;
    var pool' := Modify(grid, pool, spacing, params).1;
    ModifyAnatomy(grid, pool, spacing, params);
    ModifyKeepsInv(grid, pool, spacing, params);
    SameGrowth(pool.state, pool'.state, token0);
    forall k | k in pool'.positions && pool'.positions[k].liquidity > 0
      ensures Accrued(pool'.state.tick, Growth(pool'.state, token0), pool'.ticks, pool'.positions, k, token0)
              <= Growth(pool'.state, token0)
    {
      AccruedAfter(grid, pool, spacing, params, k, token0);
    }
  }

  /** Growth since the checkpoint: none for the touched position, the same for the others. */
  lemma AccruedAfter(grid: Grid, pool: PoolValue, spacing: Spacing, params: ModifyParams, k: PositionKey, token0: bool)
    requires PoolInv(grid, spacing, pool) && Modify(grid, pool, spacing, params).0.Ok?
    requires var pool' := Modify(grid, pool, spacing, params).1;
             PoolInv(grid, spacing, pool') && k in pool'.positions && pool'.positions[k].liquidity > 0
    ensures var pool' := Modify(grid, pool, spacing, params).1;
            PoolAccrued(pool', k, token0) == if k == params.key then 0 else PoolAccrued(pool, k, token0)
  {
    hide *;
    var pool' := Modify(grid, pool, spacing, params).1;
    InvParts(grid, pool, spacing);
    InvParts(grid, pool', spacing);
    ModifyAnatomy(grid, pool, spacing, params);
    PositionAtIs(pool'.positions, params.key);
    AccruedDef(pool', k, token0);
    if k == params.key {
      TouchedAccrual(grid, pool, spacing, params, token0);
      NoProduct(pool'.positions[k].liquidity, PoolAccrued(pool', k, token0));
    } else {
      AccruedDef(pool, k, token0);
      OthersUnchanged(pool, pool', spacing, params, k, token0);
      SameFactor(pool'.positions[k].liquidity, PoolAccrued(pool', k, token0), PoolAccrued(pool, k, token0));
    }
  }

  lemma NoProduct(l: int, x: int)
    requires l > 0 && l * x == 0
    ensures x == 0
  {
  }

  lemma SameFactor(l: int, x: int, y: int)
    requires l > 0 && l * x == l * y
    ensures x == y
  {
    if x < y {
      MulStrict(x, y, l);
    } else if y < x {
      MulStrict(y, x, l);
    }
  }

  // -------------------------------------------------------------- histories

  /** How many roundings an operation makes: one an iteration, one a liquidity change. */
  ghost function OpRoundings(grid: Grid, spacing: Spacing, w: World, op: Op): nat {
    match op
    case ModifyOp(_) => 1
    case ProtocolFeeOp(_) => 0
    case SwapOp(p) =>
      if SwapReady(grid, w.pool, p) then Rounds(grid, spacing, w.pool, w.swapFee, p) else 0
  }

  ghost function Roundings(grid: Grid, spacing: Spacing, w: World, ops: seq<Op>): nat
    decreases |ops|
  {
    hide Apply, OpRoundings;
    if ops == [] then 0
    else
      var next := Apply(grid, spacing, w, ops[0]);
      OpRoundings(grid, spacing, w, ops[0])
      + if next.None? then 0 else Roundings(grid, spacing, next.value, ops[1..])
  }

  /** LP fees charged and not yet paid out. */
  function Unpaid(l: Ledger): int {
    l.lpFees - l.feesPaid
  }

  /** What an operation charges and does not pay reaches the positions, up to its roundings. */
  ghost predicate Credits(grid: Grid, spacing: Spacing, w: World, w': World, roundings: nat, token0: bool) {
    && PoolUnwrapped(w'.pool, token0)
    && W128 * (Unpaid(LedgerOf(w', token0)) - Unpaid(LedgerOf(w, token0)))
       <= PoolAccruals(w'.pool, token0) - PoolAccruals(w.pool, token0) + W128 * roundings
  }

  lemma ModifyCredits(grid: Grid, spacing: Spacing, w: World, p: ModifyParams, token0: bool)
    requires PoolInv(grid, spacing, w.pool) && Apply(grid, spacing, w, ModifyOp(p)).Some?
    requires PoolUnwrapped(w.pool, token0)
    ensures Credits(grid, spacing, w, Apply(grid, spacing, w, ModifyOp(p)).value, 1, token0)
  {
    hide Modify, PoolInv, PoolAccruals, PoolUnwrapped;
    ModifyShortfall(grid, w.pool, spacing, p, token0);
    FeesNonNegative(grid, w.pool, spacing, p);
    var r := Modify(grid, w.pool, spacing, p).0.value;
    var l := LedgerOf(w, token0);
    NegateLast(W128, l.lpFees, l.feesPaid, if token0 then r.fee0 else r.fee1);
  }

  /** A swap's accruals, as far as its totals promise. */
  lemma SwapShortfall(grid: Grid, spacing: Spacing, w: World, p: SwapParams, token0: bool)
    requires PoolInv(grid, spacing, w.pool) && SwapReady(grid, w.pool, p) && PoolUnwrapped(w.pool, token0)
    ensures var c := CallSwap(grid, spacing, w.pool, w.swapFee, p, true);
            c.result.Ok? ==>
              && PoolUnwrapped(c.pool, token0)
              && W128 * (if token0 == p.zeroForOne then c.totals.lpFees else 0)
                 <= PoolAccruals(c.pool, token0) - PoolAccruals(w.pool, token0)
                    + W128 * OpRoundings(grid, spacing, w, SwapOp(p))
  {
    hide Run, PoolAccruals, LoopAccrued, PoolInv, LoopReconciled, SwapReady, LoopOk, Conserves, Bracket, CallFee,
         StartEnv, StartLoop, LimitExceeded, Iterations, Unwrapped;
    var fee := CallFee(w.swapFee, p);
    var c := CallSwap(grid, spacing, w.pool, w.swapFee, p, true);
    ZeroProducts(W128);
    if c.result.Ok? && p.specified != 0 {
      var env := StartEnv(grid, spacing, w.pool.state, fee.value, p, true);
      var s := StartLoop(w.pool, p);
      StartOk(grid, spacing, w.pool, fee.value, p, true);
      StartEnvIs(grid, spacing, w.pool.state, fee.value, p);
      LoopAtStart(grid, spacing, w.pool, fee.value, p, token0);
      UnwrappedAtStart(grid, spacing, w.pool, fee.value, p, token0);
      RunShortfall(env, s, w.pool.positions, token0);
      var f := Run(env, s).loop;
      LoopAtEnd(env, w.pool, f, token0);
      UnwrappedAtEnd(env, w.pool, f, token0);
    }
  }

  lemma UnwrappedAtStart(grid: Grid, spacing: Spacing, pool: PoolValue, swapFee: SwapFee, p: SwapParams, token0: bool)
    ensures LoopUnwrapped(StartEnv(grid, spacing, pool.state, swapFee, p, true), StartLoop(pool, p), pool.positions,
                          token0)
            <==> PoolUnwrapped(pool, token0)
  {
    hide Unwrapped;
  }

  lemma UnwrappedAtEnd(env: Env, pool: PoolValue, f: Loop, token0: bool)
    requires env.mutate && Finish(env, pool, f).result.Ok?
    ensures LoopUnwrapped(env, f, pool.positions, token0) <==> PoolUnwrapped(Finish(env, pool, f).pool, token0)
  {
    hide Unwrapped;
  }

  lemma SwapCredits(grid: Grid, spacing: Spacing, w: World, p: SwapParams, token0: bool)
    requires PoolInv(grid, spacing, w.pool) && Apply(grid, spacing, w, SwapOp(p)).Some?
    requires PoolUnwrapped(w.pool, token0)
    ensures Credits(grid, spacing, w, Apply(grid, spacing, w, SwapOp(p)).value,
                    OpRoundings(grid, spacing, w, SwapOp(p)), token0)
  {
    hide CallSwap, PoolInv, PoolAccruals, SwapReady, OpRoundings, PoolUnwrapped;
    SwapShortfall(grid, spacing, w, p, token0);
    var c := CallSwap(grid, spacing, w.pool, w.swapFee, p, true);
    var l := LedgerOf(w, token0);
    ShiftFees(W128, l.lpFees, l.feesPaid, c.totals.lpFees);
  }

  lemma OpCredits(grid: Grid, spacing: Spacing, w: World, op: Op, token0: bool)
    requires PoolInv(grid, spacing, w.pool) && Apply(grid, spacing, w, op).Some? && PoolUnwrapped(w.pool, token0)
    ensures Credits(grid, spacing, w, Apply(grid, spacing, w, op).value, OpRoundings(grid, spacing, w, op), token0)
  {
    hide PoolInv, PoolAccruals, PoolUnwrapped, Modify, CallSwap, SwapReady;
    match op
    case ModifyOp(p) => ModifyCredits(grid, spacing, w, p, token0);
    case SwapOp(p) => SwapCredits(grid, spacing, w, p, token0);
    case ProtocolFeeOp(fee) => ZeroProducts(W128);
  }

  lemma {:induction false} HistoryCredits(grid: Grid, spacing: Spacing, w: World, ops: seq<Op>, token0: bool)
    requires WorldInv(grid, spacing, w) && RunHistory(grid, spacing, w, ops).Some? && PoolUnwrapped(w.pool, token0)
    ensures Credits(grid, spacing, w, RunHistory(grid, spacing, w, ops).value, Roundings(grid, spacing, w, ops), token0)
    decreases |ops|
  {
    hide PoolInv, Apply, PoolAccruals, PoolUnwrapped, OpRoundings, Solvent, Unpaid;
    if ops == [] {
      ZeroProducts(W128);
    } else {
      var w1 := Apply(grid, spacing, w, ops[0]).value;
      OpCredits(grid, spacing, w, ops[0], token0);
      ApplyKeepsInv(grid, spacing, w, ops[0]);
      HistoryCredits(grid, spacing, w1, ops[1..], token0);
      var end := RunHistory(grid, spacing, w, ops).value;
      Telescoped(Unpaid(LedgerOf(end, token0)), Unpaid(LedgerOf(w1, token0)), Unpaid(LedgerOf(w, token0)), W128);
      ScaledExactly(W128, OpRoundings(grid, spacing, w, ops[0]), Roundings(grid, spacing, w1, ops[1..]));
    }
  }

  /** Owed fees are the accruals, less than one token short for every position. */
  lemma AccruedWithinOwed(pool: PoolValue, token0: bool)
    ensures PoolAccruals(pool, token0) <= W128 * (TotalOwed(pool, token0) + |pool.positions|)
  {
    hide AccruedPart, FloorShare;
    var f := AccruedPart(pool.state.tick, Growth(pool.state, token0), pool.ticks, pool.positions, token0);
    var g := OwedPart(pool, token0);
    var one := (k: PositionKey) => W128;
    forall k | k in pool.positions.Keys
      ensures f(k) <= one(k) + W128 * g(k)
    {
      ShareBounds(f(k));
    }
    SumAffineAtMost(pool.positions.Keys, f, one, g, W128);
    SumBounded(pool.positions.Keys, one, W128);
    assert |pool.positions.Keys| == |pool.positions|;
    ScaledSum(W128, TotalOwed(pool, token0), |pool.positions|);
  }

  lemma ScaledSum(w: int, a: int, b: int)
    ensures w * (a + b) == w * a + w * b
  {
  }

  /**
    Fees over whole histories, from both sides.  From an empty pool, after any
    successful operations, the LP fees charged are the fees paid out and the
    fees owed, and what rounding leaves in the pool: less than one token for
    every loop iteration, every liquidity change and every position.
  */
  lemma FeesReachPositions(grid: Grid, spacing: Spacing, w: World, ops: seq<Op>, token0: bool)
    requires IsEmptyWorld(grid, w) && RunHistory(grid, spacing, w, ops).Some?
    ensures var w' := RunHistory(grid, spacing, w, ops).value;
            var l := LedgerOf(w', token0);
            0 <= l.lpFees - (l.feesPaid + TotalOwed(w'.pool, token0))
              <= Roundings(grid, spacing, w, ops) + |w'.pool.positions|
  {
    hide RunHistory, TotalOwed, PoolAccruals, PoolWorth, Roundings, PoolInv, WorldInv, IsEmptyWorld;
    EmptyWorldInv(grid, spacing, w);
    HistorySolvent(grid, spacing, w, ops, token0);
    NothingAccrued(grid, w, token0);
    HistoryCredits(grid, spacing, w, ops, token0);
    var w' := RunHistory(grid, spacing, w, ops).value;
    AccruedWithinOwed(w'.pool, token0);
    PositiveWord();
    CancelRoundings(W128, Unpaid(LedgerOf(w', token0)), PoolAccruals(w'.pool, token0),
                    TotalOwed(w'.pool, token0) + |w'.pool.positions|, Roundings(grid, spacing, w, ops));
  }

  lemma CancelRoundings(w: int, unpaid: int, accrued: int, owed: int, units: int)
    requires w > 0 && w * unpaid <= accrued + w * units && accrued <= w * owed
    ensures unpaid <= owed + units
  {
    ScaledSum(w, owed, units);
    MulCancelLe(unpaid, owed + units, w);
  }

  lemma NothingAccrued(grid: Grid, w: World, token0: bool)
    requires IsEmptyWorld(grid, w)
    ensures PoolAccruals(w.pool, token0) == 0 && PoolUnwrapped(w.pool, token0)
    ensures Unpaid(LedgerOf(w, token0)) == 0
  {
    hide AccruedPart, IsGrid;
  }
}
