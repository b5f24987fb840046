/**
  What a run of the swap loop crosses, and that it keeps ticks, positions and
  active liquidity reconciled.
*/
module Traversal {
  import opened Words
  import opened Wrappers
  import opened SqrtPriceMath
  import opened SwapMath
  import opened PoolTypes
  import opened Sums
  import opened Reconciliation
  import opened ActiveLiquidity
  import opened SwapSpec

  /** The parts of a successful iteration. */
  lemma StepAnatomy(env: Env, s: Loop) returns (target: Target, step: SwapStep, charged: Loop)
    requires LoopOk(env, s) && !Done(env, s) && StepOnce(env, s).Reached?
    ensures target == NextTarget(env, s)
    ensures target.initialized ==> target.tick in s.ticks
    ensures StepSound(s.price, PriceTarget(env.zeroForOne, env.grid(target.tick), env.limit), s.liquidity,
                      s.remaining, env.fee, step)
    ensures Charge(env, s, step) == Ok(charged)
    ensures StepOnce(env, s) == Advance(env, s, target, step, charged)
  {
    hide NextTarget, NextInitialized, ComputeSwapStep, IsGrid, Charge, Bracket, StepSound, Advance;
    target := NextTarget(env, s);
    TargetSide(env, s);
    var price := PriceTarget(env.zeroForOne, env.grid(target.tick), env.limit);
    StepTotalAndSound(s.price, price, s.liquidity, s.remaining, env.fee);
    step := ComputeSwapStep(s.price, price, s.liquidity, s.remaining, env.fee).value;
    charged := Charge(env, s, step).value;
  }

  /** Whether the iteration crosses the target tick. */
  predicate Crosses(env: Env, target: Target, next: Price) {
    target.initialized && next == env.grid(target.tick)
  }

  /** Same ticks with the same liquidity; only the outside fee growth may differ. */
  ghost predicate SameLiquidity(a: Ticks, b: Ticks) {
    && (forall t :: t in a <==> t in b)
    && (forall t :: t in a ==> a[t].gross == b[t].gross && a[t].net == b[t].net)
  }

  /** Whether a move of the tick passes t: downwards it passes the ticks in (to, from], upwards those in (from, to]. */
  predicate Passes(zeroForOne: bool, from: int, to: int, t: int) {
    if zeroForOne then to < t <= from else from < t <= to
  }

  predicate Ordered(zeroForOne: bool, c: seq<int>) {
    forall i, j :: 0 <= i < j < |c| ==> if zeroForOne then c[i] > c[j] else c[i] < c[j]
  }

  /** c lists the stored ticks that the move passes over, each once, in swap order. */
  ghost predicate CrossedExactly(zeroForOne: bool, ticks: Ticks, from: int, to: int, c: seq<int>) {
    && Ordered(zeroForOne, c)
    && (forall t :: t in c <==> t in ticks && Passes(zeroForOne, from, to, t))
  }

  /** One iteration passes over its target if it crosses, and over no other stored tick. */
  lemma StepCrosses(env: Env, s: Loop)
    requires LoopOk(env, s) && !Done(env, s) && StepOnce(env, s).Reached?
    ensures var s' := StepOnce(env, s).loop;
            var target := NextTarget(env, s);
            && SameLiquidity(s.ticks, s'.ticks)
            && s'.totals.crossed == s.totals.crossed + (if Crosses(env, target, s'.price) then [target.tick] else [])
            && (forall t :: t in s.ticks ==>
                  (Passes(env.zeroForOne, s.tick, s'.tick, t) <==> Crosses(env, target, s'.price) && t == target.tick))
            && (if env.zeroForOne then s'.tick <= s.tick else s.tick <= s'.tick)
  {
    hide NextTarget, IsGrid, Charge, Bracket, StepSound, TickAt, Cross, LoopOk;
    var target, step, charged := StepAnatomy(env, s);
    TargetSide(env, s);
    StepProgress(env, s);
    ChargeEffect(env, s, step);
    if target.initialized {
      CrossKeepsLiquidity(env, s.ticks, target.tick, charged.growth);
    }
  }

  lemma CrossKeepsLiquidity(env: Env, ticks: Ticks, t: int, growth: U256)
    requires t in ticks
    ensures SameLiquidity(ticks, Cross(env, ticks, t, growth))
  {
  }

  lemma JoinCrossings(zeroForOne: bool, ticks: Ticks, ticks': Ticks, from: int, mid: int, to: int, first: seq<int>,
                      rest: seq<int>)
    requires SameLiquidity(ticks, ticks') && |first| <= 1
    requires if zeroForOne then to <= mid <= from else from <= mid <= to
    requires forall t :: t in ticks ==> (Passes(zeroForOne, from, mid, t) <==> t in first)
    requires forall t :: t in first ==> t in ticks
    requires CrossedExactly(zeroForOne, ticks', mid, to, rest)
    ensures CrossedExactly(zeroForOne, ticks, from, to, first + rest)
  {
    var c := first + rest;
    forall t
      ensures t in c <==> t in ticks && Passes(zeroForOne, from, to, t)
    {
      assert t in c <==> t in first || t in rest;
      assert t in ticks ==> (Passes(zeroForOne, from, to, t)
                             <==> Passes(zeroForOne, from, mid, t) || Passes(zeroForOne, mid, to, t));
    }
    forall i, j | 0 <= i < j < |c|
      ensures if zeroForOne then c[i] > c[j] else c[i] < c[j]
    {
      if i < |first| {
        var a, b := c[i], c[j];
        assert a == first[i] && a in first;
        assert a in ticks && Passes(zeroForOne, from, mid, a);
        assert b in rest;
      }
    }
  }

  /**
    A run crosses every initialized tick between the start and the end exactly
    once and in order; the price stays between the start price and the limit,
    and the run ends on the limit, with the amount used up, or without
    liquidity.
  */
  lemma {:induction false} RunTraverses(env: Env, s: Loop) returns (c: seq<int>)
    requires LoopOk(env, s) && Run(env, s).Reached?
    ensures var f := Run(env, s).loop;
            && LoopOk(env, f) && (f.remaining == 0 || f.price == env.limit || f.liquidity == 0)
            && SameLiquidity(s.ticks, f.ticks)
            && f.totals.crossed == s.totals.crossed + c
            && CrossedExactly(env.zeroForOne, s.ticks, s.tick, f.tick, c)
            && (if env.zeroForOne then env.limit <= f.price <= s.price && f.tick <= s.tick
                else s.price <= f.price <= env.limit && s.tick <= f.tick)
    decreases Distance(env, s)
  {
    hide NextTarget, IsGrid, StepOnce, Bracket;
    if Done(env, s) {
      c := [];
      assert s.totals.crossed == s.totals.crossed + c;
    } else {
      StepProgress(env, s);
      StepCrosses(env, s);
      TargetSide(env, s);
      var s' := StepOnce(env, s).loop;
      var rest := RunTraverses(env, s');
      var target := NextTarget(env, s);
      var first := if Crosses(env, target, s'.price) then [target.tick] else [];
      JoinCrossings(env.zeroForOne, s.ticks, s'.ticks, s.tick, s'.tick, Run(env, s).loop.tick, first, rest);
      c := first + rest;
      assert s'.totals.crossed + rest == s.totals.crossed + c;
    }
  }

  // ------------------------------------------------------- active liquidity

  /** The loop's liquidity is the liquidity active at its tick. */
  ghost predicate LoopReconciled(m: Positions, spacing: Spacing, s: Loop) {
    && KeysOk(m, spacing)
    && Reconciled(s.ticks, m)
    && Capped(s.ticks, spacing)
    && s.liquidity == ActiveAt(m, s.tick)
  }

  lemma SameLiquidityReconciled(ticks: Ticks, ticks': Ticks, m: Positions, spacing: Spacing)
    requires SameLiquidity(ticks, ticks') && Reconciled(ticks, m) && Capped(ticks, spacing)
    ensures Reconciled(ticks', m) && Capped(ticks', spacing)
  {
    hide GrossAt, NetAt, MaxLiquidityPerTick;
  }

  /** Moving the tick over exactly one stored tick changes the active liquidity by its net. */
  lemma ActiveAcross(ticks: Ticks, m: Positions, spacing: Spacing, zeroForOne: bool, from: int, to: int, t: int)
    requires Reconciled(ticks, m) && KeysOk(m, spacing)
    requires forall x :: x in ticks ==> (Passes(zeroForOne, from, to, x) <==> x == t)
    requires if zeroForOne then to <= from else from <= to
    ensures ActiveAt(m, to) == ActiveAt(m, from) + (if zeroForOne then 0 - NetAt(m, t) else NetAt(m, t))
  {
    hide GrossAt, Aligned;
    var sign := if zeroForOne then -1 else 1;
    forall k | k in m.Keys
      ensures ActivePart(m, to)(k) == ActivePart(m, from)(k) + sign * NetPart(m, t)(k)
    {
      if m[k].liquidity > 0 {
        EndsAreStored(ticks, m, k);
        assert Passes(zeroForOne, from, to, k.lower) <==> k.lower == t;
        assert Passes(zeroForOne, from, to, k.upper) <==> k.upper == t;
      }
    }
    SumAffine(m.Keys, ActivePart(m, to), ActivePart(m, from), NetPart(m, t), sign);
  }

  /** Moving the tick over no stored tick leaves the active liquidity alone. */
  lemma ActiveUnchanged(ticks: Ticks, m: Positions, spacing: Spacing, zeroForOne: bool, from: int, to: int)
    requires Reconciled(ticks, m) && KeysOk(m, spacing)
    requires forall x :: x in ticks ==> !Passes(zeroForOne, from, to, x)
    requires if zeroForOne then to <= from else from <= to
    ensures ActiveAt(m, to) == ActiveAt(m, from)
  {
    hide GrossAt, Aligned;
    forall k | k in m.Keys
      ensures ActivePart(m, to)(k) == ActivePart(m, from)(k)
    {
      if m[k].liquidity > 0 {
        EndsAreStored(ticks, m, k);
        assert !Passes(zeroForOne, from, to, k.lower) && !Passes(zeroForOne, from, to, k.upper);
      }
    }
    SumEqual(m.Keys, ActivePart(m, to), ActivePart(m, from));
  }

  /** An iteration keeps the loop reconciled. */
  lemma StepReconciled(env: Env, s: Loop, m: Positions)
    requires LoopOk(env, s) && !Done(env, s) && StepOnce(env, s).Reached?
    requires LoopReconciled(m, env.spacing, s)
    ensures LoopReconciled(m, env.spacing, StepOnce(env, s).loop)
  {
    hide NextTarget, IsGrid, Charge, Bracket, StepSound, TickAt, Cross, GrossAt, NetAt, ActiveAt, Reconciled, KeysOk,
         Capped, LoopOk;
    var target, step, charged := StepAnatomy(env, s);
    StepCrosses(env, s);
    ChargeEffect(env, s, step);
    var s' := StepOnce(env, s).loop;
    SameLiquidityReconciled(s.ticks, s'.ticks, m, env.spacing);
    if Crosses(env, target, s'.price) {
      ActiveAcross(s.ticks, m, env.spacing, env.zeroForOne, s.tick, s'.tick, target.tick);
      StoredNet(s.ticks, m, target.tick);
    } else {
      ActiveUnchanged(s.ticks, m, env.spacing, env.zeroForOne, s.tick, s'.tick);
    }
  }

  lemma StoredNet(ticks: Ticks, m: Positions, t: int)
    requires Reconciled(ticks, m) && t in ticks
    ensures ticks[t].net == NetAt(m, t)
  {
  }

  /** On a reconciled loop a crossing never under- or overflows the active liquidity. */
  lemma CrossingNeverFails(env: Env, s: Loop, m: Positions)
    requires LoopOk(env, s) && !Done(env, s) && LoopReconciled(m, env.spacing, s)
    ensures StepOnce(env, s).Failed? ==> StepOnce(env, s).error != LiquidityUnderflow
  {
    hide NextTarget, NextInitialized, IsGrid, Bracket, StepSound, TickAt, Cross, GrossAt, NetAt, ActiveAt,
         Reconciled, KeysOk,
         Capped, LoopOk, ComputeSwapStep, Charge, MaxLiquidityPerTick;
    TargetSide(env, s);
    TargetPriceSide(env, s);
    var target := NextTarget(env, s);
    var price := PriceTarget(env.zeroForOne, env.grid(target.tick), env.limit);
    StepTotalAndSound(s.price, price, s.liquidity, s.remaining, env.fee);
    var computed := ComputeSwapStep(s.price, price, s.liquidity, s.remaining, env.fee);
    if computed.Ok? {
      ChargeErrors(env, s, computed.value);
      if target.initialized {
        var to := if env.zeroForOne then target.tick - 1 else target.tick;
        ActiveAcross(s.ticks, m, env.spacing, env.zeroForOne, s.tick, to, target.tick);
        StoredNet(s.ticks, m, target.tick);
        ActiveFits(s.ticks, m, env.spacing, to);
      }
    }
  }

  lemma ChargeErrors(env: Env, s: Loop, step: SwapStep)
    ensures Charge(env, s, step).Err? ==> Charge(env, s, step).error != LiquidityUnderflow
  {
  }
}
