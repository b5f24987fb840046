/**
  `PoolSnapshot::validate`: which saved pools are accepted. They are exactly the
  reconciled ones whose tick is the floor tick of the price.
*/
module PoolSnapshots {
  import opened Arith
  import opened Words
  import opened Wrappers
  import opened SqrtPriceMath
  import opened Fees
  import opened PoolTypes
  import opened Sums
  import opened Reconciliation
  import opened ActiveLiquidity
  import opened SwapSpec
  import opened PositionStore

  // ------------------------------------------- active liquidity is an i128

  /** Every position with liquidity counts at both its ends, so the active liquidity is at most half of all gross. */
  lemma ActiveFitsI128(ticks: Ticks, m: Positions, spacing: Spacing, x: int)
    requires Reconciled(ticks, m) && KeysOk(m, spacing) && Capped(ticks, spacing)
    ensures 0 <= ActiveAt(m, x) < W127
  {
    hide GrossAt, NetAt, Aligned, MaxLiquidityPerTick, UsableTicks;
    SumBounds(m, x);
    SumOfGrosses(m, ticks.Keys);
    var twice := (k: PositionKey) => 2 * ActivePart(m, x)(k);
    forall k | k in m.Keys
      ensures twice(k) <= GrossOver(m, ticks.Keys)(k)
      ensures twice(k) == ActivePart(m, x)(k) + 1 * ActivePart(m, x)(k)
    {
      if m[k].liquidity > 0 {
        EndsAreStored(ticks, m, k);
      }
    }
    SumAtMost(m.Keys, twice, GrossOver(m, ticks.Keys));
    SumAffine(m.Keys, twice, ActivePart(m, x), ActivePart(m, x), 1);
    var cap := MaxLiquidityPerTick(spacing);
    SumBounded(ticks.Keys, GrossesOf(m), cap);
    StoredTicks(ticks, m, spacing);
    CapTimesTicks(spacing);
    MulMono(|ticks.Keys|, UsableTicks(spacing), cap);
    TwiceW127();
  }

  // -------------------------------------------------------------- validate

  ghost function NetsIn(ticks: Ticks): int -> int {
    (t: int) => if t in ticks then ticks[t].net else 0
  }

  /** The per-tick checks of `validate`. */
  predicate TickAccepted(t: int, inner: TickInner, spacing: Spacing) {
    && Aligned(t, spacing) && inner.gross != 0 && Abs(inner.net) <= inner.gross
    && inner.gross <= MaxLiquidityPerTick(spacing)
  }

  /** Reconciled, capped ticks pass the per-tick checks. */
  lemma ReconciledAccepted(ticks: Ticks, m: Positions, spacing: Spacing, t: int)
    requires Reconciled(ticks, m) && KeysOk(m, spacing) && Capped(ticks, spacing) && t in ticks
    ensures TickAccepted(t, ticks[t], spacing)
  {
    hide GrossAt, NetAt, Aligned, MaxLiquidityPerTick;
    SumBounds(m, t);
    var k := TickHasPosition(m, t);
  }

  /** The running sum of nets up to a tick, on reconciled ticks. */
  lemma RunningSum(ticks: Ticks, m: Positions, spacing: Spacing, x: int)
    requires Reconciled(ticks, m) && KeysOk(m, spacing)
    ensures Sum(Below(ticks, x), NetsIn(ticks)) == ActiveAt(m, x)
  {
    hide GrossAt, NetAt, Aligned;
    SumEqual(Below(ticks, x), NetsIn(ticks), NetsOf(m));
    ActiveIsPrefixSum(ticks, m, spacing, x);
  }

  /** Ticks already visited in ascending order. */
  ghost function Visited(ticks: Ticks, rest: set<int>): set<int> {
    ticks.Keys - rest
  }

  /** Visiting one more tick at or below the current one. */
  lemma VisitNext(ticks: Ticks, rest: set<int>, t: int)
    requires t in rest && rest <= ticks.Keys
    requires forall a, b :: a in Visited(ticks, rest) && b in rest ==> a < b
    requires forall x :: x in rest ==> t <= x
    ensures Visited(ticks, rest - {t}) == Visited(ticks, rest) + {t} == Below(ticks, t)
    ensures Sum(Below(ticks, t), NetsIn(ticks)) == Sum(Visited(ticks, rest), NetsIn(ticks)) + ticks[t].net
  {
    assert Visited(ticks, rest - {t}) == Visited(ticks, rest) + {t};
    forall x
      ensures x in Below(ticks, t) <==> x in Visited(ticks, rest) + {t}
    {
    }
    SumAdd(Visited(ticks, rest), NetsIn(ticks), t);
  }

  /** What has been summed: the visited ticks at or below the current tick. */
  ghost function Summed(ticks: Ticks, rest: set<int>, tick: int): set<int> {
    set t | t in Visited(ticks, rest) && t <= tick
  }

  lemma SummedNext(ticks: Ticks, rest: set<int>, t: int, tick: int)
    requires t in rest && rest <= ticks.Keys
    requires forall a, b :: a in Visited(ticks, rest) && b in rest ==> a < b
    requires forall x :: x in rest ==> t <= x
    ensures Sum(Summed(ticks, rest - {t}, tick), NetsIn(ticks))
         == Sum(Summed(ticks, rest, tick), NetsIn(ticks)) + if t <= tick then ticks[t].net else 0
    ensures t <= tick ==> Summed(ticks, rest - {t}, tick) == Below(ticks, t)
    ensures Visited(ticks, rest - {t}) == Visited(ticks, rest) + {t}
  {
    VisitNext(ticks, rest, t);
    if t <= tick {
      assert Summed(ticks, rest - {t}, tick) == Below(ticks, t);
      assert Summed(ticks, rest, tick) == Visited(ticks, rest);
    } else {
      assert Summed(ticks, rest - {t}, tick) == Summed(ticks, rest, tick);
    }
  }

  ghost predicate Restorable(grid: Grid, spacing: Spacing, pool: PoolValue, protocolFee: ProtocolFee) {
    && PoolInv(grid, spacing, pool)
    && pool.state.tick == TickAt(grid, pool.state.price)
    && protocolFee.zeroForOne <= 1_000 && protocolFee.oneForZero <= 1_000
  }

  /** `validate`: accepted iff the snapshot is a reconciled pool at the floor tick of its price, with one spacing. */
  method Validate(grid: Grid, spacing: Spacing, state: PoolState, protocolFee: ProtocolFee, ticksSpacing: Spacing,
                  ticks: Ticks, positions: PositionStore) returns (r: Result<()>)
    requires KeysInRange(ticks)
    ensures r.Ok? <==> ticksSpacing == spacing
                       && Restorable(grid, spacing, PoolValue(state, ticks, positions.entries), protocolFee)
    ensures r.Err? ==>
              if ticksSpacing != spacing then r.error == InvalidTickSpacing
              else if !protocolFee.IsValid() then r.error == FeeTooLarge
              else if state.tick != TickAt(grid, state.price) then r.error == InvalidTick
              else r.error == InvalidTick || r.error == LiquidityOverflow
  {
    hide GrossAt, NetAt, ActiveAt, Aligned, MaxLiquidityPerTick, Reconciled, KeysOk, TickAt, Bracket;
    if ticksSpacing != spacing {
      return Err(InvalidTickSpacing);
    }
    if !protocolFee.IsValid() {
      return Err(FeeTooLarge);
    }
    if TickAt(grid, state.price) != state.tick {
      return Err(InvalidTick);
    }
    TickAtBracket(grid, state.price);
    var sum := SumTicks(spacing, state.tick, ticks, positions.entries);
    if sum.Err? {
      return Err(sum.error);
    }
    if sum.value < 0 || Abs(sum.value) != state.liquidity {
      UnlessReconciled(spacing, state, ticks, positions.entries, sum.value);
      return Err(InvalidTick);
    }
    r := positions.ValidateAgainstTicks(spacing, ticks);
    UnlessReconciled(spacing, state, ticks, positions.entries, sum.value);
  }

  lemma TickAtBracket(grid: Grid, p: Price)
    ensures Bracket(grid, TickAt(grid, p), p)
  {
    hide TickAt, IsGrid;
    TickAtIsFloor(grid, p);
  }

  lemma UnlessReconciled(spacing: Spacing, state: PoolState, ticks: Ticks, m: Positions, sum: int)
    requires sum == Sum(Below(ticks, state.tick), NetsIn(ticks))
    ensures Reconciled(ticks, m) && KeysOk(m, spacing) ==> sum == ActiveAt(m, state.tick) >= 0
  {
    hide GrossAt, NetAt, Aligned;
    if Reconciled(ticks, m) && KeysOk(m, spacing) {
      RunningSum(ticks, m, spacing, state.tick);
      SumBounds(m, state.tick);
    }
  }

  /** The loop of `validate` over the ticks in ascending order. */
  method SumTicks(spacing: Spacing, tick: int, ticks: Ticks, ghost m: Positions) returns (r: Result<int>)
    ensures r.Ok? ==> Capped(ticks, spacing) && r.value == Sum(Below(ticks, tick), NetsIn(ticks))
    ensures Reconciled(ticks, m) && KeysOk(m, spacing) && Capped(ticks, spacing) ==> r.Ok?
    ensures r.Err? ==> r.error == InvalidTick || r.error == LiquidityOverflow
  {
    hide GrossAt, NetAt, ActiveAt, Aligned, MaxLiquidityPerTick, Reconciled, KeysOk, NetsIn, Summed;
    var rest := ticks.Keys;
    var active := 0;
    NothingSummed(ticks, tick);
    while rest != {}
      invariant rest <= ticks.Keys
      invariant forall a, b :: a in Visited(ticks, rest) && b in rest ==> a < b
      invariant forall t :: t in Visited(ticks, rest) ==> TickAccepted(t, ticks[t], spacing)
      invariant active == Sum(Summed(ticks, rest, tick), NetsIn(ticks))
      decreases rest
    {
      ghost var least := LeastMember(rest);
      var t :| t in rest && forall x :: x in rest ==> t <= x;
      var inner := ticks[t];
      if Reconciled(ticks, m) && KeysOk(m, spacing) && Capped(ticks, spacing) {
        ReconciledAccepted(ticks, m, spacing, t);
        RunningSum(ticks, m, spacing, t);
        ActiveFitsI128(ticks, m, spacing, t);
      }
      SummedNext(ticks, rest, t, tick);
      if !Aligned(t, spacing) || inner.gross == 0 || Abs(inner.net) > inner.gross {
        return Err(InvalidTick);
      }
      if inner.gross > MaxLiquidityPerTick(spacing) {
        return Err(LiquidityOverflow);
      }
      if t <= tick {
        if !(0 - W127 <= active + inner.net < W127) {
          return Err(LiquidityOverflow);
        }
        active := active + inner.net;
      }
      rest := rest - {t};
    }
    EverySummed(ticks, tick);
    r := Ok(active);
  }

  lemma NothingSummed(ticks: Ticks, tick: int)
    ensures Sum(Summed(ticks, ticks.Keys, tick), NetsIn(ticks)) == 0
    ensures Visited(ticks, ticks.Keys) == {}
  {
    assert Summed(ticks, ticks.Keys, tick) == {};
  }

  lemma EverySummed(ticks: Ticks, tick: int)
    ensures Summed(ticks, {}, tick) == Below(ticks, tick) && Visited(ticks, {}) == ticks.Keys
  {
  }
}
