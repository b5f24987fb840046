/** Position storage: src/core/concentrated/position.rs. */
module PositionStore {
  import opened Bits
  import opened Words
  import opened Wrappers
  import opened FullMath
  import opened PoolTypes
  import opened PoolSpec
  import opened Sums
  import opened Reconciliation

  /** Gross and net liquidity expected at a tick. */
  datatype Tally = Tally(gross: nat, net: int)

  class PositionStore {
    var entries: Positions

    constructor ()
      ensures entries == map[]
    {
      entries := map[];
    }

    /** A copy of saved entries. */
    constructor Of(entries: Positions)
      ensures this.entries == entries
    {
      this.entries := entries;
    }

    /** The liquidity half of `PositionState::update`: the entry is resized, or the change is refused. */
    method Resize(key: PositionKey, delta: I128) returns (r: Result<()>)
      requires key in entries
      modifies this
      ensures var liquidity := old(entries)[key].liquidity;
              if delta == 0 && liquidity == 0 then r == Err(PositionNotFound) && entries == old(entries)
              else if !(0 <= liquidity + delta < W128) then r == Err(LiquidityOverflow) && entries == old(entries)
              else r == Ok(()) && entries == old(entries)[key := old(entries)[key].(liquidity := liquidity + delta)]
    {
      hide Pow2;
      if delta == 0 {
        if entries[key].liquidity == 0 {
          return Err(PositionNotFound);
        }
      } else {
        var liquidity := entries[key].liquidity + delta;
        if !(0 <= liquidity < W128) {
          return Err(LiquidityOverflow);
        }
        entries := entries[key := entries[key].(liquidity := liquidity)];
      }
      r := Ok(());
    }

    /** `update_position` with `PositionState::update`: the entry is created if missing and then changed in place. */
    method Update(key: PositionKey, delta: I128, inside0: U256, inside1: U256) returns (r: Result<(nat, nat)>)
      modifies this
      ensures var before := PositionAt(old(entries), key);
              var (after, earned) := UpdatePosition(before, delta, inside0, inside1);
              entries == old(entries)[key := after] && r == earned
    {
      hide FeesOwed, Pow2;
      if key !in entries {
        entries := entries[key := EMPTY_POSITION];
      }
      var before := entries[key];
      assert entries == old(entries)[key := before];
      var resized := Resize(key, delta);
      if resized.Err? {
        return Err(resized.error);
      }
      assert entries == old(entries)[key := before.(liquidity := before.liquidity + delta)];
      r := EarnedFees(before, inside0, inside1);
      if r.Ok? {
        entries := entries[key := entries[key].(last0 := inside0, last1 := inside1)];
        assert entries == old(entries)[key := Position(before.liquidity + delta, inside0, inside1)];
      }
    }

    /**
      `validate_against_ticks`: sums the positions tick by tick, with checked
      arithmetic, and compares. Acceptance means the ticks are reconciled with
      the positions; ticks within the per-tick cap that are reconciled are
      accepted.
    */
    method ValidateAgainstTicks(spacing: Spacing, ticks: Ticks) returns (r: Result<()>)
      ensures r.Ok? ==> KeysOk(entries, spacing) && Reconciled(ticks, entries)
      ensures KeysOk(entries, spacing) && Reconciled(ticks, entries) && Capped(ticks, spacing) ==> r.Ok?
      ensures r.Err? ==> r.error == InvalidTick || r.error == LiquidityOverflow
    {
      hide GrossAt, NetAt, Aligned, MaxLiquidityPerTick, Tallied, Counted, Reconciled, Capped, Resized;
      var expected: map<int, Tally> := map[];
      var rest := entries.Keys;
      NothingTallied(entries);
      while rest != {}
        invariant rest <= entries.Keys
        invariant forall k :: k in entries && k !in rest ==>
                    k.lower < k.upper && Aligned(k.lower, spacing) && Aligned(k.upper, spacing)
        invariant Tallied(expected, Counted(entries, rest))
        decreases rest
      {
        var key :| key in rest;
        if key.lower >= key.upper || !Aligned(key.lower, spacing) || !Aligned(key.upper, spacing) {
          return Err(InvalidTick);
        }
        var counted := CountPosition(expected, key, entries[key].liquidity, spacing, ticks, entries, rest);
        if counted.Err? {
          return Err(counted.error);
        }
        expected := counted.value;
        rest := rest - {key};
      }
      AllCounted(entries);
      ComparedIs(expected, ticks, entries);
      if expected != (map t | t in ticks :: Tally(ticks[t].gross, ticks[t].net)) {
        return Err(InvalidTick);
      }
      r := Ok(());
    }
  }

  /** The fee half of `PositionState::update`, in both tokens. */
  method EarnedFees(before: Position, inside0: U256, inside1: U256) returns (r: Result<(nat, nat)>)
    ensures r == match (FeesOwed(before, inside0, true), FeesOwed(before, inside1, false))
                 case (Err(e), _) => Err(e)
                 case (Ok(_), Err(e)) => Err(e)
                 case (Ok(fees0), Ok(fees1)) => Ok((fees0, fees1))
  {
    hide FloorQuotient, Pow2, WrappingSub;
    if before.liquidity == 0 {
      return Ok((0, 0));
    }
    W128Fits();
    var fees0 := MulDiv(WrappingSub(inside0, before.last0), before.liquidity, W128);
    if fees0.Err? {
      return Err(fees0.error);
    }
    var fees1 := MulDiv(WrappingSub(inside1, before.last1), before.liquidity, W128);
    if fees1.Err? {
      return Err(fees1.error);
    }
    r := Ok((fees0.value, fees1.value));
  }

  /** One round of `validate_against_ticks`: a position with liquidity adds to the tallies of both its ends. */
  method CountPosition(expected: map<int, Tally>, key: PositionKey, liquidity: nat, ghost spacing: Spacing,
                       ghost ticks: Ticks, ghost m: Positions, ghost rest: set<PositionKey>)
    returns (r: Result<map<int, Tally>>)
    requires key in m && key in rest && key.lower < key.upper && liquidity == m[key].liquidity
    requires Tallied(expected, Counted(m, rest))
    ensures r.Ok? ==> Tallied(r.value, Counted(m, rest - {key}))
    ensures KeysOk(m, spacing) && Reconciled(ticks, m) && Capped(ticks, spacing) ==> r.Ok?
    ensures r.Err? ==> r.error == LiquidityOverflow
  {
    hide GrossAt, NetAt, KeysOk, Tallied, Counted, Reconciled, Capped, Resized, Pow2;
    CountMore(m, rest, key);
    ghost var counted, more := Counted(m, rest), Counted(m, rest - {key});
    if liquidity == 0 {
      SkipEmpty(expected, counted, more, key);
      return Ok(expected);
    }
    assert rest - {key} + {key} == rest;
    RoomForBoth(spacing, ticks, m, rest - {key}, key, counted);
    AddBothEnds(expected, counted, more, key, liquidity);
    if liquidity >= W127 {
      return Err(LiquidityOverflow);
    }
    var lower := TallyAt(expected, key.lower);
    if lower.gross + liquidity >= W128 || lower.net + liquidity >= W127 {
      return Err(LiquidityOverflow);
    }
    var halfway := expected[key.lower := Tally(lower.gross + liquidity, lower.net + liquidity)];
    var upper := TallyAt(halfway, key.upper);
    if upper.gross + liquidity >= W128 || upper.net - liquidity < 0 - W127 {
      return Err(LiquidityOverflow);
    }
    r := Ok(halfway[key.upper := Tally(upper.gross + liquidity, upper.net - liquidity)]);
  }

  lemma NothingTallied(m: Positions)
    ensures Tallied(map[], Counted(m, m.Keys))
  {
    assert Counted(m, m.Keys) == map[];
  }

  lemma AllCounted(m: Positions)
    ensures Counted(m, {}) == m
  {
  }

  lemma ComparedIs(expected: map<int, Tally>, ticks: Ticks, m: Positions)
    requires Tallied(expected, m)
    ensures expected == (map t | t in ticks :: Tally(ticks[t].gross, ticks[t].net)) <==> Reconciled(ticks, m)
  {
    hide GrossAt, NetAt;
    var actual := map t | t in ticks :: Tally(ticks[t].gross, ticks[t].net);
    if Reconciled(ticks, m) {
      forall t
        ensures t in expected <==> t in actual
        ensures t in actual ==> expected[t] == actual[t]
      {
        assert t in ticks <==> GrossAt(m, t) > 0;
      }
      assert expected == actual;
    } else if expected == actual {
      forall t
        ensures t in ticks <==> GrossAt(m, t) > 0
        ensures t in ticks ==> ticks[t].gross == GrossAt(m, t) && ticks[t].net == NetAt(m, t)
      {
        assert t in ticks <==> t in expected;
        if t in ticks {
          assert actual[t] == expected[t];
        }
      }
    }
  }

  /** On reconciled, capped ticks no addition of the tally overflows. */
  lemma RoomForBoth(spacing: Spacing, ticks: Ticks, m: Positions, rest: set<PositionKey>, k: PositionKey,
                    counted: Positions)
    requires k in m && k !in rest && counted == Counted(m, rest + {k}) && k.lower < k.upper
    ensures KeysOk(m, spacing) && Reconciled(ticks, m) && Capped(ticks, spacing) ==>
              && m[k].liquidity < W127
              && GrossAt(counted, k.lower) + m[k].liquidity < W127 && GrossAt(counted, k.upper) + m[k].liquidity < W127
    ensures NetAt(counted, k.lower) <= GrossAt(counted, k.lower)
    ensures NetAt(counted, k.upper) >= 0 - GrossAt(counted, k.upper)
    ensures 0 <= GrossAt(counted, k.lower) && 0 <= GrossAt(counted, k.upper) && W127 < W128
  {
    hide GrossAt, NetAt, MaxLiquidityPerTick, Counted, Reconciled, Capped, KeysOk;
    TwiceW127();
    RoomAt(m, rest, k, counted, k.lower);
    RoomAt(m, rest, k, counted, k.upper);
    if Reconciled(ticks, m) && Capped(ticks, spacing) {
      GrossFits(ticks, m, spacing, k.lower);
      GrossFits(ticks, m, spacing, k.upper);
    }
  }

  /** The tally of one end, before the position is added. */
  lemma RoomAt(m: Positions, rest: set<PositionKey>, k: PositionKey, counted: Positions, t: int)
    requires k in m && k !in rest && counted == Counted(m, rest + {k}) && k.lower < k.upper
    requires t == k.lower || t == k.upper
    ensures GrossAt(counted, t) + m[k].liquidity <= GrossAt(m, t)
    ensures 0 <= GrossAt(counted, t) && 0 - GrossAt(counted, t) <= NetAt(counted, t) <= GrossAt(counted, t)
  {
    hide GrossAt, NetAt, Counted;
    assert rest + {k} - {k} == rest;
    CountMore(m, rest + {k}, k);
    ResizedSums(counted, Counted(m, rest), k, m[k].liquidity, t);
    SumBounds(counted, t);
    CountedIsPart(m, rest, t);
  }

  lemma GrossFits(ticks: Ticks, m: Positions, spacing: Spacing, t: int)
    requires Reconciled(ticks, m) && Capped(ticks, spacing)
    ensures GrossAt(m, t) < W127
  {
    hide GrossAt, NetAt, MaxLiquidityPerTick;
    CapTimesTicks(spacing);
    PositiveHalf();
  }

  lemma PositiveHalf()
    ensures 0 < W127
  {
  }

  lemma W128Fits()
    ensures 0 < W128 < W256
  {
    Pow2StrictlyMonotone(128, 256);
  }

  // ------------------------------------------------ validate_against_ticks

  /** The positions already counted. */
  ghost function Counted(m: Positions, rest: set<PositionKey>): Positions {
    map k | k in m && k !in rest :: m[k]
  }

  /** The tallies are the sums over the counted positions, at exactly the ticks where they are not zero. */
  ghost predicate Tallied(expected: map<int, Tally>, m: Positions) {
    && (forall t :: t in expected <==> GrossAt(m, t) > 0)
    && (forall t :: t in expected ==> expected[t].gross == GrossAt(m, t) && expected[t].net == NetAt(m, t))
  }

  lemma CountMore(m: Positions, rest: set<PositionKey>, k: PositionKey)
    requires k in m && k in rest
    ensures Counted(m, rest - {k}) == Counted(m, rest)[k := m[k]]
    ensures Resized(Counted(m, rest), Counted(m, rest - {k}), k, m[k].liquidity)
  {
  }

  /** A position without liquidity adds to no tally. */
  lemma SkipEmpty(expected: map<int, Tally>, m: Positions, m': Positions, k: PositionKey)
    requires Tallied(expected, m) && Resized(m, m', k, 0) && k.lower < k.upper
    ensures Tallied(expected, m')
  {
    hide GrossAt, NetAt, Resized;
    forall t
      ensures GrossAt(m', t) == GrossAt(m, t) && NetAt(m', t) == NetAt(m, t)
    {
      ResizedSums(m, m', k, 0, t);
    }
  }

  function TallyAt(expected: map<int, Tally>, t: int): Tally {
    if t in expected then expected[t] else Tally(0, 0)
  }

  /** A position with liquidity adds to the tallies of both its ends. */
  lemma AddBothEnds(expected: map<int, Tally>, m: Positions, m': Positions, k: PositionKey, l: nat)
    requires Tallied(expected, m) && Resized(m, m', k, l) && k.lower < k.upper && l > 0
    ensures var (low, high) := (TallyAt(expected, k.lower), TallyAt(expected, k.upper));
            && low.gross == GrossAt(m, k.lower) && low.net == NetAt(m, k.lower)
            && high.gross == GrossAt(m, k.upper) && high.net == NetAt(m, k.upper)
            && Tallied(expected[k.lower := Tally(low.gross + l, low.net + l)]
                               [k.upper := Tally(high.gross + l, high.net - l)], m')
  {
    hide GrossAt, NetAt, Resized;
    forall t
      ensures GrossAt(m, t) >= 0 && (GrossAt(m, t) == 0 ==> NetAt(m, t) == 0)
      ensures GrossAt(m', t) == GrossAt(m, t) + (if t == k.lower || t == k.upper then l else 0)
      ensures NetAt(m', t) == NetAt(m, t) + (if t == k.lower then l else 0) - (if t == k.upper then l else 0)
    {
      SumBounds(m, t);
      ResizedSums(m, m', k, l, t);
    }
  }

  /** Counting fewer positions never gives more. */
  lemma CountedIsPart(m: Positions, rest: set<PositionKey>, t: int)
    ensures GrossAt(Counted(m, rest), t) <= GrossAt(m, t)
    decreases rest
  {
    hide GrossAt;
    if rest == {} {
      assert Counted(m, {}) == m;
    } else {
      var k :| k in rest;
      CountedIsPart(m, rest - {k}, t);
      if k in m {
        CountMore(m, rest, k);
        OneMoreGross(Counted(m, rest), Counted(m, rest - {k}), k, m[k].liquidity, t);
      } else {
        assert Counted(m, rest) == Counted(m, rest - {k});
      }
    }
  }

  lemma OneMoreGross(m: Positions, m': Positions, k: PositionKey, l: nat, t: int)
    requires Resized(m, m', k, l)
    ensures GrossAt(m, t) <= GrossAt(m', t)
  {
    SumChange(m.Keys, m'.Keys, GrossPart(m', t), GrossPart(m, t), k);
  }
}
