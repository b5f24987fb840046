/**
  Whole histories of a pool: any sequence of successful liquidity changes,
  swaps and protocol-fee changes, with a ledger of the tokens that moved.
*/
module Histories {
  import opened Arith
  import opened Words
  import opened Wrappers
  import opened SqrtPriceMath
  import opened Fees
  import opened PoolTypes
  import opened PoolSpec
  import opened Sums
  import opened Reconciliation
  import opened SwapSpec
  import opened Traversal
  import opened Solvency
  import opened FeeGrowth
  import opened ModifyEffects
  import opened SwapCall

  /** One token's ledger. */
  datatype Ledger = Ledger(
    vault: int,         // tokens paid in by callers minus tokens paid out to them
    principal: int,     // net principal: liquidity deposits and swap amounts, fees excluded
    lpFees: nat,        // LP fees charged by swaps
    feesPaid: nat,      // LP fees paid out to positions
    protocolFees: nat)  // protocol fees charged by swaps

  datatype World = World(pool: PoolValue, swapFee: SwapFee, ledger0: Ledger, ledger1: Ledger)

  datatype Op =
    | ModifyOp(change: ModifyParams)
    | SwapOp(swap: SwapParams)
    | ProtocolFeeOp(fee: ProtocolFee)

  function LedgerOf(w: World, token0: bool): Ledger {
    if token0 then w.ledger0 else w.ledger1
  }

  /** Booking a liquidity change: `delta` is signed from the caller's perspective, `fee` is paid out. */
  function BookModify(l: Ledger, delta: int, fee: nat): Ledger {
    l.(vault := l.vault - delta - fee, principal := l.principal - delta, feesPaid := l.feesPaid + fee)
  }

  /** Booking a swap in its input token, and in its output token. */
  function BookInput(l: Ledger, delta: int, totals: Totals): Ledger {
    l.(vault := l.vault - delta, principal := l.principal + totals.amountIn, lpFees := l.lpFees + totals.lpFees,
       protocolFees := l.protocolFees + totals.protocolFees)
  }

  function BookOutput(l: Ledger, delta: int, totals: Totals): Ledger {
    l.(vault := l.vault - delta, principal := l.principal - totals.amountOut)
  }

  function BookSwap(l: Ledger, delta: int, totals: Totals, isInput: bool): Ledger {
    if isInput then BookInput(l, delta, totals) else BookOutput(l, delta, totals)
  }

  /** Whether the operation's arguments are those the source accepts. */
  ghost predicate OpOk(grid: Grid, w: World, op: Op) {
    match op
    case ModifyOp(_) => true
    case SwapOp(p) => SwapReady(grid, w.pool, p)
    case ProtocolFeeOp(fee) => fee.IsValid()
  }

  /** One operation on the pool, booked; None when the call fails. */
  ghost function Apply(grid: Grid, spacing: Spacing, w: World, op: Op): Option<World> {
    if !OpOk(grid, w, op) then None
    else
      match op
      case ModifyOp(p) =>
        var (r, pool) := Modify(grid, w.pool, spacing, p);
        if r.Err? then None
        else
          FeesNonNegative(grid, w.pool, spacing, p);
          Some(World(pool, w.swapFee, BookModify(w.ledger0, r.value.delta0, r.value.fee0),
                     BookModify(w.ledger1, r.value.delta1, r.value.fee1)))
      case SwapOp(p) =>
        var c := CallSwap(grid, spacing, w.pool, w.swapFee, p, true);
        if c.result.Err? then None
        else Some(World(c.pool, w.swapFee,
                        BookSwap(w.ledger0, c.result.value.delta0, c.totals, p.zeroForOne),
                        BookSwap(w.ledger1, c.result.value.delta1, c.totals, !p.zeroForOne)))
      case ProtocolFeeOp(fee) =>
        var updated := w.swapFee.SetProtocolFee(fee);
        if updated.Err? then None else Some(w.(swapFee := updated.value))
  }

  lemma FeesNonNegative(grid: Grid, pool: PoolValue, spacing: Spacing, p: ModifyParams)
    ensures var r := Modify(grid, pool, spacing, p).0;
            r.Ok? ==> r.value.fee0 >= 0 && r.value.fee1 >= 0
  {
    hide Modify;
    ModifyAnatomy(grid, pool, spacing, p);
  }

  /** A history: every operation succeeds. */
  ghost function RunHistory(grid: Grid, spacing: Spacing, w: World, ops: seq<Op>): Option<World>
    decreases |ops|
  {
    hide Apply;
    if ops == [] then Some(w)
    else
      var next := Apply(grid, spacing, w, ops[0]);
      if next.None? then None else RunHistory(grid, spacing, next.value, ops[1..])
  }

  // -------------------------------------------------------------- invariant

  ghost function PoolWorth(grid: Grid, pool: PoolValue, token0: bool): real {
    TotalWorth(grid, pool.positions, pool.state.price, token0)
  }

  ghost function PoolAccruals(pool: PoolValue, token0: bool): int {
    TotalAccrued(pool.state.tick, Growth(pool.state, token0), pool.ticks, pool.positions, token0)
  }

  /** One token is solvent: principal covers the exact worth, LP fees cover what was paid and what is accrued. */
  ghost predicate Solvent(grid: Grid, w: World, token0: bool) {
    var l := LedgerOf(w, token0);
    && PoolWorth(grid, w.pool, token0) <= l.principal as real
    && PoolAccruals(w.pool, token0) <= W128 * (l.lpFees - l.feesPaid)
    && l.vault == l.principal + l.lpFees - l.feesPaid + l.protocolFees
  }

  ghost predicate WorldInv(grid: Grid, spacing: Spacing, w: World) {
    && PoolInv(grid, spacing, w.pool)
    && w.swapFee.Valid()
    && Solvent(grid, w, true)
    && Solvent(grid, w, false)
  }

  /** What one operation adds to the principal ledger beyond what the positions gain. */
  ghost predicate Pays(grid: Grid, w: World, w': World, token0: bool) {
    var l, l' := LedgerOf(w, token0), LedgerOf(w', token0);
    && PoolWorth(grid, w'.pool, token0) - PoolWorth(grid, w.pool, token0) <= (l'.principal - l.principal) as real
    && PoolAccruals(w'.pool, token0) - PoolAccruals(w.pool, token0)
       <= W128 * ((l'.lpFees - l'.feesPaid) - (l.lpFees - l.feesPaid))
    && l'.vault - l.vault == (l'.principal - l.principal) + (l'.lpFees - l.lpFees) - (l'.feesPaid - l.feesPaid)
                             + (l'.protocolFees - l.protocolFees)
    && l.lpFees <= l'.lpFees && l.feesPaid <= l'.feesPaid && l.protocolFees <= l'.protocolFees
  }

  lemma PaysKeepsSolvent(grid: Grid, w: World, w': World, token0: bool)
    requires Solvent(grid, w, token0) && Pays(grid, w, w', token0)
    ensures Solvent(grid, w', token0)
  {
    hide PoolWorth, PoolAccruals;
    var l, l' := LedgerOf(w, token0), LedgerOf(w', token0);
    Telescoped(l'.lpFees - l'.feesPaid, l.lpFees - l.feesPaid, 0, W128);
    assert (l'.principal - l.principal) as real == l'.principal as real - l.principal as real;
  }

  // --------------------------------------------------- the three operations

  lemma ModifyPays(grid: Grid, spacing: Spacing, w: World, p: ModifyParams, token0: bool)
    requires PoolInv(grid, spacing, w.pool) && Apply(grid, spacing, w, ModifyOp(p)).Some?
    ensures var w' := Apply(grid, spacing, w, ModifyOp(p)).value;
            PoolInv(grid, spacing, w'.pool) && w'.swapFee == w.swapFee && Pays(grid, w, w', token0)
  {
    hide Modify, PoolInv, TotalWorth, TotalAccrued;
    ModifyKeepsInv(grid, w.pool, spacing, p);
    ModifySolvent(grid, w.pool, spacing, p);
    ModifyAccrued(grid, w.pool, spacing, p, token0);
    FeesNonNegative(grid, w.pool, spacing, p);
    var r := Modify(grid, w.pool, spacing, p).0.value;
    var l := LedgerOf(w, token0);
    NegateLast(W128, l.lpFees, l.feesPaid, if token0 then r.fee0 else r.fee1);
  }

  lemma NegateLast(w: int, a: int, b: int, fee: int)
    ensures w * (0 - fee) == 0 - w * fee
    ensures w * ((a - (b + fee)) - (a - b)) == 0 - w * fee
  {
    assert (a - (b + fee)) - (a - b) == 0 - fee;
  }

  /** The loop's start and end, as pool values. */
  lemma LoopAtStart(grid: Grid, spacing: Spacing, pool: PoolValue, swapFee: SwapFee, p: SwapParams, token0: bool)
    requires PoolInv(grid, spacing, pool)
    ensures var env := StartEnv(grid, spacing, pool.state, swapFee, p, true);
            var s := StartLoop(pool, p);
            && LoopReconciled(pool.positions, spacing, s)
            && Conserves(env, s)
            && LoopAccrued(env, s, pool.positions, token0) == PoolAccruals(pool, token0)
            && LpFees(env, s.totals, token0) == 0 && NetPrincipal(env, s.totals, token0) == 0
            && s.price == pool.state.price
  {
    hide Reconciled, KeysOk, Capped, TotalAccrued, ActiveAt, Bracket;
  }

  lemma LoopAtEnd(env: Env, pool: PoolValue, f: Loop, token0: bool)
    requires env.mutate && Finish(env, pool, f).result.Ok?
    ensures var pool' := Finish(env, pool, f).pool;
            && pool'.positions == pool.positions
            && pool'.ticks == f.ticks
            && pool'.state.price == f.price && pool'.state.tick == f.tick && pool'.state.liquidity == f.liquidity
            && PoolAccruals(pool', token0) == LoopAccrued(env, f, pool.positions, token0)
  {
    hide TotalAccrued;
  }

  /** A swap keeps the pool reconciled and pays for what the positions gain. */
  lemma SwapPays(grid: Grid, spacing: Spacing, w: World, p: SwapParams, token0: bool)
    requires PoolInv(grid, spacing, w.pool) && Apply(grid, spacing, w, SwapOp(p)).Some?
    ensures var w' := Apply(grid, spacing, w, SwapOp(p)).value;
            && PoolInv(grid, spacing, w'.pool) && w'.swapFee == w.swapFee
            && w'.pool.positions == w.pool.positions
            && Pays(grid, w, w', token0)
  {
    hide CallSwap, PoolInv, PoolWorth, PoolAccruals, SwapReady;
    var c := CallSwap(grid, spacing, w.pool, w.swapFee, p, true);
    SwapDelivers(grid, spacing, w.pool, w.swapFee, p, true);
    SwapEffect(grid, spacing, w.pool, w.swapFee, p, token0);
    var l := LedgerOf(w, token0);
    ShiftFees(W128, l.lpFees, l.feesPaid, c.totals.lpFees);
  }

  lemma ShiftFees(w: int, a: int, b: int, fee: int)
    ensures w * ((a + fee - b) - (a - b)) == w * fee
    ensures w * ((a - b) - (a - b)) == 0
  {
    assert (a + fee - b) - (a - b) == fee;
  }

  /** The pool after a successful swap, against the totals of its run. */
  lemma SwapEffect(grid: Grid, spacing: Spacing, pool: PoolValue, swapFee: SwapFee, p: SwapParams, token0: bool)
    requires PoolInv(grid, spacing, pool) && SwapReady(grid, pool, p)
    ensures var c := CallSwap(grid, spacing, pool, swapFee, p, true);
            c.result.Ok? ==>
              && PoolInv(grid, spacing, c.pool)
              && c.pool.positions == pool.positions
              && PoolWorth(grid, c.pool, token0) - PoolWorth(grid, pool, token0)
                 <= (if token0 == p.zeroForOne then c.totals.amountIn else 0 - c.totals.amountOut) as real
              && PoolAccruals(c.pool, token0) - PoolAccruals(pool, token0)
                 <= W128 * (if token0 == p.zeroForOne then c.totals.lpFees else 0)
  {
    hide Run, PoolAccruals, LoopAccrued, TotalWorth, PoolInv, LoopReconciled, SwapReady, LoopOk, Conserves, Bracket,
         CallFee,
         StartEnv, StartLoop, LimitExceeded;
    var fee := CallFee(swapFee, p);
    var c := CallSwap(grid, spacing, pool, swapFee, p, true);
    ZeroProducts(W128);
    if c.result.Ok? && p.specified != 0 {
      var env := StartEnv(grid, spacing, pool.state, fee.value, p, true);
      var s := StartLoop(pool, p);
      StartOk(grid, spacing, pool, fee.value, p, true);
      StartEnvIs(grid, spacing, pool.state, fee.value, p);
      var f := Run(env, s).loop;
      LoopAtStart(grid, spacing, pool, fee.value, p, token0);
      RunSolvent(env, s, pool.positions, token0);
      RunAccrued(env, s, pool.positions, token0);
      var crossed := RunTraverses(env, s);
      LoopAtEnd(env, pool, f, token0);
      InvFromLoop(grid, spacing, env, f, c.pool);
      WorthAt(grid, pool, c.pool, token0);
    }
  }

  lemma ZeroProducts(w: int)
    ensures w * 0 == 0
  {
  }

  lemma StartEnvIs(grid: Grid, spacing: Spacing, state: PoolState, swapFee: SwapFee, p: SwapParams)
    ensures var env := StartEnv(grid, spacing, state, swapFee, p, true);
            env.grid == grid && env.spacing == spacing && env.mutate && env.zeroForOne == p.zeroForOne
  {
  }

  lemma WorthAt(grid: Grid, pool: PoolValue, pool': PoolValue, token0: bool)
    requires pool'.positions == pool.positions
    ensures PoolWorth(grid, pool', token0) == TotalWorth(grid, pool.positions, pool'.state.price, token0)
    ensures PoolWorth(grid, pool, token0) == TotalWorth(grid, pool.positions, pool.state.price, token0)
  {
  }

  lemma InvFromLoop(grid: Grid, spacing: Spacing, env: Env, f: Loop, pool': PoolValue)
    requires env.grid == grid && LoopOk(env, f) && LoopReconciled(pool'.positions, spacing, f)
    requires pool'.ticks == f.ticks && pool'.state.price == f.price && pool'.state.tick == f.tick
    requires pool'.state.liquidity == f.liquidity
    ensures PoolInv(grid, spacing, pool')
  {
    hide Reconciled, Capped, KeysOk, Bracket, ActiveAt;
  }

  /** On a reconciled pool the caller of a swap only owes a price limit strictly inside the price range. */
  lemma SwapAlwaysReady(grid: Grid, spacing: Spacing, pool: PoolValue, p: SwapParams)
    requires PoolInv(grid, spacing, pool)
    ensures SwapReady(grid, pool, p) <==> MIN_SQRT_PRICE < p.limit < MAX_SQRT_PRICE
  {
    hide GrossAt, NetAt, ActiveAt, Bracket, Aligned;
    forall t | t in pool.ticks
      ensures MIN_TICK <= t <= MAX_TICK
    {
      var k := TickHasPosition(pool.positions, t);
    }
  }

  // ------------------------------------------------------------ the theorems

  /** Every successful operation keeps the world invariant. */
  lemma ApplyKeepsInv(grid: Grid, spacing: Spacing, w: World, op: Op)
    requires WorldInv(grid, spacing, w) && Apply(grid, spacing, w, op).Some?
    ensures WorldInv(grid, spacing, Apply(grid, spacing, w, op).value)
  {
    hide Apply, PoolInv, Solvent, Pays;
    var w' := Apply(grid, spacing, w, op).value;
    match op
    case ModifyOp(p) =>
      ModifyPays(grid, spacing, w, p, true);
      ModifyPays(grid, spacing, w, p, false);
      PaysKeepsSolvent(grid, w, w', true);
      PaysKeepsSolvent(grid, w, w', false);
    case SwapOp(p) =>
      SwapPays(grid, spacing, w, p, true);
      SwapPays(grid, spacing, w, p, false);
      PaysKeepsSolvent(grid, w, w', true);
      PaysKeepsSolvent(grid, w, w', false);
    case ProtocolFeeOp(fee) =>
      ProtocolFeeApplied(grid, spacing, w, fee);
  }

  lemma ProtocolFeeApplied(grid: Grid, spacing: Spacing, w: World, fee: ProtocolFee)
    requires WorldInv(grid, spacing, w) && Apply(grid, spacing, w, ProtocolFeeOp(fee)).Some?
    ensures WorldInv(grid, spacing, Apply(grid, spacing, w, ProtocolFeeOp(fee)).value)
  {
    hide PoolInv, PoolWorth, PoolAccruals;
    SettersKeepCaches(w.swapFee, 0, fee);
  }

  lemma {:induction false} HistoryKeepsInv(grid: Grid, spacing: Spacing, w: World, ops: seq<Op>)
    requires WorldInv(grid, spacing, w) && RunHistory(grid, spacing, w, ops).Some?
    ensures WorldInv(grid, spacing, RunHistory(grid, spacing, w, ops).value)
    decreases |ops|
  {
    hide WorldInv, Apply;
    if ops != [] {
      ApplyKeepsInv(grid, spacing, w, ops[0]);
      HistoryKeepsInv(grid, spacing, Apply(grid, spacing, w, ops[0]).value, ops[1..]);
    }
  }

  const EMPTY_LEDGER: Ledger := Ledger(0, 0, 0, 0, 0)

  /** A new pool: no ticks, no positions, no liquidity. */
  ghost predicate IsEmptyWorld(grid: Grid, w: World) {
    && Bracket(grid, w.pool.state.tick, w.pool.state.price)
    && w.pool.ticks == map[] && w.pool.positions == map[] && w.pool.state.liquidity == 0
    && w.swapFee.Valid()
    && w.ledger0 == EMPTY_LEDGER && w.ledger1 == EMPTY_LEDGER
  }

  lemma EmptyWorldInv(grid: Grid, spacing: Spacing, w: World)
    requires IsEmptyWorld(grid, w)
    ensures WorldInv(grid, spacing, w)
  {
    hide IsGrid, MaxLiquidityPerTick;
    forall t: int
      ensures GrossAt(w.pool.positions, t) == 0
    {
    }
  }

  /** Fees owed to each position, as `modify_liquidity` would pay them now. */
  ghost function OwedPart(pool: PoolValue, token0: bool): PositionKey -> int {
    (k: PositionKey) => Owed(pool, k, token0)
  }

  ghost function TotalOwed(pool: PoolValue, token0: bool): int {
    Sum(pool.positions.Keys, OwedPart(pool, token0))
  }

  lemma OwedWithinAccrued(pool: PoolValue, token0: bool)
    ensures W128 * TotalOwed(pool, token0) <= PoolAccruals(pool, token0)
  {
    hide AccruedPart;
    var f := AccruedPart(pool.state.tick, Growth(pool.state, token0), pool.ticks, pool.positions, token0);
    var g := OwedPart(pool, token0);
    var zero := (k: PositionKey) => 0;
    var scaled := (k: PositionKey) => W128 * g(k);
    forall k | k in pool.positions.Keys
      ensures scaled(k) <= f(k)
    {
      FloorDivBounds(f(k), Pow2W128());
      assert W128 * FloorShare(f(k)) == FloorShare(f(k)) * W128;
    }
    SumAtMost(pool.positions.Keys, scaled, f);
    forall k | k in pool.positions.Keys
      ensures scaled(k) == zero(k) + W128 * g(k)
    {
    }
    SumAffine(pool.positions.Keys, scaled, zero, g, W128);
    SumAffine(pool.positions.Keys, zero, zero, zero, -1);
  }

  /**
    Solvency over whole histories.  From an empty pool, after any sequence of
    successful operations, the tokens held cover in each token the exact worth
    of all positions, all LP fees still owed, and all protocol fees.  That a
    position can be paid needs its amounts to fit in 128 bits as well: see
    module Withdrawals.
  */
  lemma HistorySolvent(grid: Grid, spacing: Spacing, w: World, ops: seq<Op>, token0: bool)
    requires IsEmptyWorld(grid, w) && RunHistory(grid, spacing, w, ops).Some?
    ensures var w' := RunHistory(grid, spacing, w, ops).value;
            var l := LedgerOf(w', token0);
            && PoolInv(grid, spacing, w'.pool)
            && PoolWorth(grid, w'.pool, token0) + (TotalOwed(w'.pool, token0) + l.protocolFees) as real
               <= l.vault as real
            && l.feesPaid + TotalOwed(w'.pool, token0) <= l.lpFees
            && PoolWorth(grid, w'.pool, token0) >= 0.0 && TotalOwed(w'.pool, token0) >= 0
  {
    hide RunHistory, IsEmptyWorld, TotalOwed, PoolAccruals, PoolWorth;
    EmptyWorldInv(grid, spacing, w);
    HistoryKeepsInv(grid, spacing, w, ops);
    var w' := RunHistory(grid, spacing, w, ops).value;
    OwedWithinAccrued(w'.pool, token0);
    var l := LedgerOf(w', token0);
    PositiveWord();
    MulCancelLe(TotalOwed(w'.pool, token0), l.lpFees - l.feesPaid, W128);
    WorthAndOwedNonNegative(grid, spacing, w'.pool, token0);
    assert (TotalOwed(w'.pool, token0) + l.protocolFees) as real
        == TotalOwed(w'.pool, token0) as real + l.protocolFees as real;
    assert l.vault as real == l.principal as real + (l.lpFees - l.feesPaid) as real + l.protocolFees as real;
    assert TotalOwed(w'.pool, token0) as real <= (l.lpFees - l.feesPaid) as real;
  }

  lemma WorthAndOwedNonNegative(grid: Grid, spacing: Spacing, pool: PoolValue, token0: bool)
    requires PoolInv(grid, spacing, pool)
    ensures PoolWorth(grid, pool, token0) >= 0.0 && TotalOwed(pool, token0) >= 0
  {
    hide Worth, Accrued, IsGrid, Bracket, Reconciled, Capped, ActiveAt, Aligned;
    forall k | k in pool.positions.Keys
      ensures WorthPart(grid, pool.positions, pool.state.price, token0)(k) >= 0.0
    {
      WorthNonNegative(grid, k, pool.positions[k].liquidity, pool.state.price, token0);
    }
    SumRealNonNegative(pool.positions.Keys, WorthPart(grid, pool.positions, pool.state.price, token0));
    forall k | k in pool.positions.Keys
      ensures OwedPart(pool, token0)(k) >= 0
    {
      var x := AccruedPart(pool.state.tick, Growth(pool.state, token0), pool.ticks, pool.positions, token0)(k);
      MulNonNegative(pool.positions[k].liquidity,
                     Accrued(pool.state.tick, Growth(pool.state, token0), pool.ticks, pool.positions, k, token0));
      FloorDivAtLeast(x, Pow2W128(), 0);
    }
    SumNonNegative(pool.positions.Keys, OwedPart(pool, token0));
  }

  /** A history of swaps only pays in at least what the positions gain, and leaves the positions alone. */
  lemma {:induction false} SwapsPay(grid: Grid, spacing: Spacing, w: World, ops: seq<Op>, token0: bool)
    requires PoolInv(grid, spacing, w.pool) && RunHistory(grid, spacing, w, ops).Some?
    requires forall op :: op in ops ==> op.SwapOp?
    ensures var w' := RunHistory(grid, spacing, w, ops).value;
            && PoolInv(grid, spacing, w'.pool)
            && w'.pool.positions == w.pool.positions
            && PoolWorth(grid, w'.pool, token0) - PoolWorth(grid, w.pool, token0)
               <= (LedgerOf(w', token0).vault - LedgerOf(w, token0).vault) as real
    decreases |ops|
  {
    hide PoolInv, Apply, PoolWorth, PoolAccruals;
    if ops != [] {
      assert ops[0] in ops;
      var w1 := Apply(grid, spacing, w, ops[0]).value;
      SwapPays(grid, spacing, w, ops[0].swap, token0);
      NoFeesPaidBySwap(grid, spacing, w, ops[0].swap, token0);
      SwapsPay(grid, spacing, w1, ops[1..], token0);
    }
  }

  lemma NoFeesPaidBySwap(grid: Grid, spacing: Spacing, w: World, p: SwapParams, token0: bool)
    requires Apply(grid, spacing, w, SwapOp(p)).Some?
    ensures LedgerOf(Apply(grid, spacing, w, SwapOp(p)).value, token0).feesPaid == LedgerOf(w, token0).feesPaid
  {
    hide CallSwap, OpOk;
  }

  /** Swaps that come back to the starting price never leave the traders ahead, in either token. */
  lemma RoundTripNeverProfits(grid: Grid, spacing: Spacing, w: World, ops: seq<Op>, token0: bool)
    requires PoolInv(grid, spacing, w.pool) && RunHistory(grid, spacing, w, ops).Some?
    requires forall op :: op in ops ==> op.SwapOp?
    requires RunHistory(grid, spacing, w, ops).value.pool.state.price == w.pool.state.price
    ensures LedgerOf(w, token0).vault <= LedgerOf(RunHistory(grid, spacing, w, ops).value, token0).vault
  {
    hide RunHistory, PoolInv;
    SwapsPay(grid, spacing, w, ops, token0);
  }

  // ------------------------------------------------- histories of every kind

  lemma OpPays(grid: Grid, spacing: Spacing, w: World, op: Op, token0: bool)
    requires PoolInv(grid, spacing, w.pool) && Apply(grid, spacing, w, op).Some?
    ensures var w' := Apply(grid, spacing, w, op).value;
            PoolInv(grid, spacing, w'.pool) && PaysPrincipal(grid, w, w', token0)
  {
    hide PoolInv, PoolWorth, PoolAccruals, Modify, CallSwap, SwapReady;
    match op
    case ModifyOp(p) => ModifyPays(grid, spacing, w, p, token0);
    case SwapOp(p) => SwapPays(grid, spacing, w, p, token0);
    case ProtocolFeeOp(_) =>
  }

  /** The positions gain no more worth than the principal paid in. */
  ghost predicate PaysPrincipal(grid: Grid, w: World, w': World, token0: bool) {
    PoolWorth(grid, w'.pool, token0) - PoolWorth(grid, w.pool, token0)
    <= (LedgerOf(w', token0).principal - LedgerOf(w, token0).principal) as real
  }

  lemma {:induction false} HistoryPays(grid: Grid, spacing: Spacing, w: World, ops: seq<Op>, token0: bool)
    requires PoolInv(grid, spacing, w.pool) && RunHistory(grid, spacing, w, ops).Some?
    ensures var w' := RunHistory(grid, spacing, w, ops).value;
            PoolInv(grid, spacing, w'.pool) && PaysPrincipal(grid, w, w', token0)
    decreases |ops|
  {
    hide PoolInv, Apply, PoolWorth;
    if ops != [] {
      OpPays(grid, spacing, w, ops[0], token0);
      HistoryPays(grid, spacing, Apply(grid, spacing, w, ops[0]).value, ops[1..], token0);
    }
  }

  /** Worth depends on the liquidities only, not on entries without any. */
  lemma SameLiquiditySameWorth(grid: Grid, m: Positions, m': Positions, p: Price, token0: bool)
    requires forall k :: LiquidityOf(m', k) == LiquidityOf(m, k)
    ensures TotalWorth(grid, m', p, token0) == TotalWorth(grid, m, p, token0)
  {
    hide Worth, IsGrid;
    var f, f' := WorthPart(grid, m, p, token0), WorthPart(grid, m', p, token0);
    var all := m.Keys + m'.Keys;
    forall k
      ensures f'(k) == f(k)
      ensures k !in m || k !in m' ==> f(k) == 0.0
    {
      assert LiquidityOf(m', k) == LiquidityOf(m, k);
      if k !in m || k !in m' {
        WorthAdds(grid, k, 0, 0, p, token0);
      }
    }
    SumRealOver(m.Keys, all, f);
    SumRealOver(m'.Keys, all, f');
    SumRealEqual(all, f', f);
  }

  /**
    No history brings the price and every liquidity back and has taken
    principal out, whatever liquidity changes and swaps it is made of.
  */
  lemma ReturnNeverLowersPrincipal(grid: Grid, spacing: Spacing, w: World, ops: seq<Op>, token0: bool)
    requires PoolInv(grid, spacing, w.pool) && RunHistory(grid, spacing, w, ops).Some?
    requires RunHistory(grid, spacing, w, ops).value.pool.state.price == w.pool.state.price
    requires forall k :: LiquidityOf(RunHistory(grid, spacing, w, ops).value.pool.positions, k)
                         == LiquidityOf(w.pool.positions, k)
    ensures LedgerOf(w, token0).principal <= LedgerOf(RunHistory(grid, spacing, w, ops).value, token0).principal
  {
    hide RunHistory, PoolInv, TotalWorth, LiquidityOf;
    HistoryPays(grid, spacing, w, ops, token0);
    var w' := RunHistory(grid, spacing, w, ops).value;
    SameLiquiditySameWorth(grid, w.pool.positions, w'.pool.positions, w.pool.state.price, token0);
  }
}
