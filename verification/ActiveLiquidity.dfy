/**
  Active liquidity as a prefix sum of nets, and why it always fits in a u128.
*/
module ActiveLiquidity {
  import opened Arith
  import opened Words
  import opened PoolTypes
  import opened Sums
  import opened Reconciliation

  ghost function NetsOf(m: Positions): int -> int {
    (t: int) => NetAt(m, t)
  }

  ghost function GrossesOf(m: Positions): int -> int {
    (t: int) => GrossAt(m, t)
  }

  /** A position's net contribution over a set of ticks: plus if it starts there, minus if it ends there. */
  ghost function NetOver(m: Positions, ticks: set<int>): PositionKey -> int {
    (k: PositionKey) => (if k.lower in ticks then LiquidityOf(m, k) else 0)
                        - (if k.upper in ticks then LiquidityOf(m, k) else 0)
  }

  ghost function GrossOver(m: Positions, ticks: set<int>): PositionKey -> int {
    (k: PositionKey) => (if k.lower in ticks then LiquidityOf(m, k) else 0)
                        + (if k.upper in ticks && k.upper != k.lower then LiquidityOf(m, k) else 0)
  }

  /** Exchanging the two sums: nets summed over ticks, or over positions. */
  lemma {:induction false} SumOfNets(m: Positions, ticks: set<int>)
    ensures Sum(ticks, NetsOf(m)) == Sum(m.Keys, NetOver(m, ticks))
    decreases ticks
  {
    if ticks == {} {
      SumAffine(m.Keys, NetOver(m, {}), (k: PositionKey) => 0, NetOver(m, {}), 0);
      SumAffine(m.Keys, (k: PositionKey) => 0, (k: PositionKey) => 0, (k: PositionKey) => 0, -1);
    } else {
      var t := Pick(ticks);
      SumRemove(ticks, NetsOf(m), t);
      SumOfNets(m, ticks - {t});
      SumAffine(m.Keys, NetOver(m, ticks), NetOver(m, ticks - {t}), NetPart(m, t), 1);
    }
  }

  lemma {:induction false} SumOfGrosses(m: Positions, ticks: set<int>)
    ensures Sum(ticks, GrossesOf(m)) == Sum(m.Keys, GrossOver(m, ticks))
    decreases ticks
  {
    if ticks == {} {
      SumAffine(m.Keys, GrossOver(m, {}), (k: PositionKey) => 0, GrossOver(m, {}), 0);
      SumAffine(m.Keys, (k: PositionKey) => 0, (k: PositionKey) => 0, (k: PositionKey) => 0, -1);
    } else {
      var t := Pick(ticks);
      SumRemove(ticks, GrossesOf(m), t);
      SumOfGrosses(m, ticks - {t});
      forall k
        ensures GrossOver(m, ticks)(k) == GrossOver(m, ticks - {t})(k) + 1 * GrossPart(m, t)(k)
      {
        GrossOverOneMore(m, ticks, t, k);
      }
      SumAffine(m.Keys, GrossOver(m, ticks), GrossOver(m, ticks - {t}), GrossPart(m, t), 1);
    }
  }

  lemma GrossOverOneMore(m: Positions, ticks: set<int>, t: int, k: PositionKey)
    requires t in ticks
    ensures GrossOver(m, ticks)(k) == GrossOver(m, ticks - {t})(k) + GrossPart(m, t)(k)
  {
  }

  /** The ticks at or below x. */
  ghost function Below(ticks: Ticks, x: int): set<int> {
    set t | t in ticks && t <= x
  }

  /** Both ends of a position with liquidity are stored. */
  lemma EndsAreStored(ticks: Ticks, m: Positions, k: PositionKey)
    requires Reconciled(ticks, m) && k in m && m[k].liquidity > 0
    ensures k.lower in ticks && k.upper in ticks
  {
    SumBounds(m, k.lower);
    SumBounds(m, k.upper);
  }

  /** The liquidity active at tick x is the sum of the nets at and below x: what `validate` recomputes. */
  lemma ActiveIsPrefixSum(ticks: Ticks, m: Positions, spacing: Spacing, x: int)
    requires Reconciled(ticks, m) && KeysOk(m, spacing)
    ensures Sum(Below(ticks, x), NetsOf(m)) == ActiveAt(m, x)
  {
    hide GrossAt, NetAt, Aligned;
    var s := Below(ticks, x);
    SumOfNets(m, s);
    forall k | k in m.Keys
      ensures NetOver(m, s)(k) == ActivePart(m, x)(k)
    {
      if m[k].liquidity > 0 {
        EndsAreStored(ticks, m, k);
      }
    }
    SumEqual(m.Keys, NetOver(m, s), ActivePart(m, x));
  }

  // ---------------------------------------------------- the u128 bound

  lemma {:induction false} SumBounded<K(!new)>(keys: set<K>, f: K -> int, bound: int)
    requires forall t :: t in keys ==> f(t) <= bound
    ensures Sum(keys, f) <= bound * |keys|
    decreases keys
  {
    if keys == {} {
    } else {
      var t := Pick(keys);
      var rest := keys - {t};
      SumRemove(keys, f, t);
      SumBounded(rest, f, bound);
      assert keys == rest + {t};
      OneMore(bound, |rest|);
    }
  }

  lemma OneMore(bound: int, n: nat)
    ensures bound * (n + 1) == bound * n + bound
  {
  }

  /** A set of integers between lo and hi has at most hi - lo + 1 members. */
  lemma {:induction false} RangeSize(s: set<int>, lo: int, hi: int)
    requires forall x :: x in s ==> lo <= x <= hi
    requires lo <= hi + 1
    ensures |s| <= hi - lo + 1
    decreases hi - lo + 1
  {
    if lo == hi + 1 {
      if s != {} {
        var x := Pick(s);
        assert false;
      }
    } else {
      RangeSize(s - {hi}, lo, hi - 1);
      if hi in s {
        assert s == s - {hi} + {hi};
      } else {
        assert s == s - {hi};
      }
    }
  }

  /** Distinct multiples of the spacing compress to distinct numbers. */
  lemma {:induction false} CompressKeepsSize(ticks: set<int>, spacing: Spacing) returns (image: set<int>)
    requires forall t :: t in ticks ==> Aligned(t, spacing)
    ensures |image| == |ticks|
    ensures forall q :: q in image ==> q * spacing in ticks
    decreases ticks
  {
    image := {};
    if ticks != {} {
      var t := Pick(ticks);
      image := CompressKeepsSize(ticks - {t}, spacing);
      var q := FloorDiv(t, spacing);
      assert q * spacing == t;
      assert q !in image;
      image := image + {q};
    }
  }

  /** At most UsableTicks(spacing) ticks can be stored. */
  lemma StoredTicks(ticks: Ticks, m: Positions, spacing: Spacing)
    requires Reconciled(ticks, m) && KeysOk(m, spacing)
    ensures |ticks.Keys| <= UsableTicks(spacing)
  {
    hide GrossAt, NetAt, Aligned;
    forall t | t in ticks.Keys
      ensures Aligned(t, spacing) && MIN_TICK <= t <= MAX_TICK
    {
      var k := TickHasPosition(m, t);
    }
    var image := CompressKeepsSize(ticks.Keys, spacing);
    var lo, hi := FloorDiv(MIN_TICK, spacing), FloorDiv(MAX_TICK, spacing);
    forall q | q in image
      ensures lo <= q <= hi
    {
      FloorDivAtLeast(MAX_TICK, spacing, q);
      FloorDivAtLeast(q * spacing, spacing, q);
      FloorDivMonotone(MIN_TICK, q * spacing, spacing);
      FloorDivBounds(q * spacing, spacing);
      ExactFloor(q, spacing);
    }
    FloorDivMonotone(MIN_TICK, MAX_TICK, spacing);
    RangeSize(image, lo, hi);
  }

  lemma ExactFloor(q: int, d: int)
    requires d > 0
    ensures FloorDiv(q * d, d) == q
  {
    DivModUniqueInt(q * d, d, q, 0);
  }

  /** The multiples of the spacing in a range. */
  ghost function MultiplesIn(lo: int, hi: int, spacing: Spacing): set<int> {
    set t | lo <= t <= hi && t % spacing == 0
  }

  lemma {:induction false} CountMultiples(lo: int, hi: int, spacing: Spacing)
    requires lo <= hi + 1
    ensures |MultiplesIn(lo * spacing, hi * spacing, spacing)| == hi - lo + 1
    decreases hi - lo + 1
  {
    var all := MultiplesIn(lo * spacing, hi * spacing, spacing);
    if lo == hi + 1 {
      MulStrict(hi, lo, spacing);
      assert all == {};
    } else {
      var rest := MultiplesIn(lo * spacing, (hi - 1) * spacing, spacing);
      CountMultiples(lo, hi - 1, spacing);
      MulMono(lo, hi, spacing);
      MulStrict(hi - 1, hi, spacing);
      DivModUniqueInt(hi * spacing, spacing, hi, 0);
      forall t | t in all
        ensures t in rest || t == hi * spacing
      {
        NextMultiple(t, hi, spacing);
      }
      assert all == rest + {hi * spacing};
    }
  }

  lemma NextMultiple(t: int, hi: int, spacing: Spacing)
    requires t % spacing == 0 && t <= hi * spacing
    ensures t <= (hi - 1) * spacing || t == hi * spacing
  {
    var q := t / spacing;
    assert t == q * spacing;
    if q < hi {
      MulMono(q, hi - 1, spacing);
    } else {
      MulMono(hi, q, spacing);
    }
  }

  /** The cap is shared by the aligned ticks of the range, and by one more below it unless its lower end is aligned. */
  lemma UsableTicksCounted(spacing: Spacing)
    ensures UsableTicks(spacing)
         == |MultiplesIn(MIN_TICK, MAX_TICK, spacing)| + if MIN_TICK % spacing == 0 then 0 else 1
  {
    hide FloorDiv;
    var lo, hi := FloorDiv(MIN_TICK, spacing), FloorDiv(MAX_TICK, spacing);
    FloorDivMonotone(MIN_TICK, MAX_TICK, spacing);
    FloorDivBounds(MIN_TICK, spacing);
    FloorDivBounds(MAX_TICK, spacing);
    FloorRemainder(MIN_TICK, spacing);
    var first := if MIN_TICK % spacing == 0 then lo else lo + 1;
    CountMultiples(first, hi, spacing);
    forall t | t % spacing == 0
      ensures MIN_TICK <= t <= MAX_TICK <==> first * spacing <= t <= hi * spacing
    {
      MultipleInside(t, spacing, lo, hi, first);
    }
    assert MultiplesIn(MIN_TICK, MAX_TICK, spacing) == MultiplesIn(first * spacing, hi * spacing, spacing);
  }

  lemma FloorRemainder(a: int, d: int)
    requires d > 0
    ensures a % d == a - FloorDiv(a, d) * d
  {
  }

  lemma MultipleInside(t: int, spacing: Spacing, lo: int, hi: int, first: int)
    requires t % spacing == 0
    requires lo * spacing <= MIN_TICK < lo * spacing + spacing && hi * spacing <= MAX_TICK < hi * spacing + spacing
    requires first == if MIN_TICK == lo * spacing then lo else lo + 1
    ensures MIN_TICK <= t <= MAX_TICK <==> first * spacing <= t <= hi * spacing
  {
    var q := t / spacing;
    assert t == q * spacing;
    assert (lo + 1) * spacing == lo * spacing + spacing;
    assert (hi + 1) * spacing == hi * spacing + spacing;
    if q <= lo {
      MulMono(q, lo, spacing);
    } else {
      MulMono(lo + 1, q, spacing);
    }
    if q <= hi {
      MulMono(q, hi, spacing);
    } else {
      MulMono(hi + 1, q, spacing);
    }
  }

  /** The per-tick cap keeps the liquidity active at any tick within a u128. */
  lemma ActiveFits(ticks: Ticks, m: Positions, spacing: Spacing, x: int)
    requires Reconciled(ticks, m) && KeysOk(m, spacing) && Capped(ticks, spacing)
    ensures 0 <= ActiveAt(m, x) < W128
  {
    hide GrossAt, NetAt, Aligned, MaxLiquidityPerTick, UsableTicks;
    SumBounds(m, x);
    SumOfGrosses(m, ticks.Keys);
    forall k | k in m.Keys
      ensures ActivePart(m, x)(k) <= GrossOver(m, ticks.Keys)(k)
    {
      if m[k].liquidity > 0 {
        EndsAreStored(ticks, m, k);
      }
    }
    SumAtMost(m.Keys, ActivePart(m, x), GrossOver(m, ticks.Keys));
    var cap := MaxLiquidityPerTick(spacing);
    SumBounded(ticks.Keys, GrossesOf(m), cap);
    StoredTicks(ticks, m, spacing);
    CapTimesTicks(spacing);
    MulMono(|ticks.Keys|, UsableTicks(spacing), cap);
  }
}
