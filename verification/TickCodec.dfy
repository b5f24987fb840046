/**
  Ticks by number and ticks by index: the two views of one tick store, and how
  lookups and changes of one show in the other.
*/
module TickCodec {
  import opened Arith
  import opened Bits
  import opened Wrappers
  import opened PoolTypes
  import opened SwapSpec
  import opened TickSlabIndexer
  import opened TickPages

  /** Every tick is aligned and inside the tick range. */
  ghost predicate Storable(ticks: Ticks, spacing: Spacing) {
    forall t :: t in ticks ==> MIN_TICK <= t <= MAX_TICK && Aligned(t, spacing)
  }

  /** The index decodes to a tick of the range. */
  predicate Decodes(i: int, spacing: Spacing) {
    0 <= i < 2 * Half(spacing) && MIN_TICK <= ToTick(i, spacing) <= MAX_TICK
  }

  ghost predicate Decodable(m: TickMap, spacing: Spacing) {
    forall i :: i in m ==> Decodes(i, spacing)
  }

  /** The accounting of every tick, by number. */
  ghost function TicksOf(m: TickMap, spacing: Spacing): Ticks {
    map t: int | MIN_TICK <= t <= MAX_TICK && Aligned(t, spacing) && FromTick(t, spacing) in m
      :: m[FromTick(t, spacing)].inner
  }

  /** What the store holds for a tick: its number, its price on the grid, its accounting. */
  ghost function InfoOf(grid: Grid, t: int, inner: TickInner): TickInfo {
    TickInfo(t, grid(t), inner)
  }

  /** The store's contents, by index, for given ticks. */
  ghost function InfosOf(grid: Grid, spacing: Spacing, ticks: Ticks): TickMap {
    map i: int | 0 <= i < 2 * Half(spacing) && Decodes(i, spacing) && ToTick(i, spacing) in ticks
      :: InfoOf(grid, ToTick(i, spacing), ticks[ToTick(i, spacing)])
  }

  lemma NoInfos(grid: Grid, spacing: Spacing)
    ensures InfosOf(grid, spacing, map[]) == map[] && Storable(map[], spacing)
  {
    hide ToTick, Half, Decodes;
  }

  lemma EncodesBack(t: TickIndex, spacing: Spacing)
    requires Aligned(t, spacing)
    ensures Decodes(FromTick(t, spacing), spacing) && ToTick(FromTick(t, spacing), spacing) == t
    ensures FromTick(t, spacing) < Pow2(21)
  {
    hide FromTick, ToTick, Half, Pow2, FloorDiv;
    FromTickIs(t, spacing);
    IndexRoundTrip(t, spacing);
  }

  lemma DecodesBack(i: int, spacing: Spacing)
    requires Decodes(i, spacing)
    ensures Aligned(ToTick(i, spacing), spacing) && FromTick(ToTick(i, spacing), spacing) == i
  {
    hide FromTick, ToTick, Half;
    TickRoundTrip(i, spacing);
  }

  /** Looking a tick up by number or by index. */
  lemma InfosAt(grid: Grid, spacing: Spacing, ticks: Ticks, t: TickIndex)
    requires Storable(ticks, spacing) && Aligned(t, spacing)
    ensures FromTick(t, spacing) in InfosOf(grid, spacing, ticks) <==> t in ticks
    ensures t in ticks ==> InfosOf(grid, spacing, ticks)[FromTick(t, spacing)] == InfoOf(grid, t, ticks[t])
  {
    hide FromTick, ToTick, Half, Pow2, Aligned;
    EncodesBack(t, spacing);
  }

  /** Numbers to indexes and back. */
  lemma TicksRoundTrip(grid: Grid, spacing: Spacing, ticks: Ticks)
    requires Storable(ticks, spacing)
    ensures TicksOf(InfosOf(grid, spacing, ticks), spacing) == ticks
    ensures Decodable(InfosOf(grid, spacing, ticks), spacing)
  {
    hide FromTick, ToTick, Half, Aligned, InfosOf;
    var m := InfosOf(grid, spacing, ticks);
    forall t: TickIndex | Aligned(t, spacing)
      ensures FromTick(t, spacing) in m <==> t in ticks
      ensures t in ticks ==> m[FromTick(t, spacing)] == InfoOf(grid, t, ticks[t])
    {
      InfosAt(grid, spacing, ticks, t);
    }
    InfosDecodable(grid, spacing, ticks);
  }

  lemma InfosDecodable(grid: Grid, spacing: Spacing, ticks: Ticks)
    ensures Decodable(InfosOf(grid, spacing, ticks), spacing)
  {
    hide FromTick, ToTick, Half, Decodes;
  }

  /** Indexes to numbers and back, when every entry is what the store holds for its tick. */
  lemma InfosRoundTrip(grid: Grid, spacing: Spacing, m: TickMap)
    requires Decodable(m, spacing)
    requires forall i :: i in m ==> m[i] == InfoOf(grid, ToTick(i, spacing), m[i].inner)
    ensures Storable(TicksOf(m, spacing), spacing)
    ensures InfosOf(grid, spacing, TicksOf(m, spacing)) == m
  {
    hide FromTick, ToTick, Half, Aligned;
    forall i | Decodes(i, spacing)
      ensures Aligned(ToTick(i, spacing), spacing) && FromTick(ToTick(i, spacing), spacing) == i
    {
      DecodesBack(i, spacing);
    }
  }

  lemma StoreTick(grid: Grid, spacing: Spacing, ticks: Ticks, t: TickIndex, inner: TickInner)
    requires Storable(ticks, spacing) && Aligned(t, spacing)
    ensures Storable(ticks[t := inner], spacing)
    ensures InfosOf(grid, spacing, ticks)[FromTick(t, spacing) := InfoOf(grid, t, inner)]
         == InfosOf(grid, spacing, ticks[t := inner])
  {
    hide FromTick, ToTick, Half, Aligned, Pow2;
    EncodesBack(t, spacing);
    forall i | Decodes(i, spacing)
      ensures ToTick(i, spacing) == t <==> i == FromTick(t, spacing)
    {
      DecodesBack(i, spacing);
    }
  }

  lemma DropTick(grid: Grid, spacing: Spacing, ticks: Ticks, t: TickIndex)
    requires Storable(ticks, spacing) && Aligned(t, spacing)
    ensures Storable(ticks - {t}, spacing)
    ensures InfosOf(grid, spacing, ticks) - {FromTick(t, spacing)} == InfosOf(grid, spacing, ticks - {t})
  {
    hide FromTick, ToTick, Half, Aligned, Pow2;
    EncodesBack(t, spacing);
    forall i | Decodes(i, spacing)
      ensures ToTick(i, spacing) == t <==> i == FromTick(t, spacing)
    {
      DecodesBack(i, spacing);
    }
  }

  /**
    The nearest entry by index is the nearest tick by number, also from a tick
    that is not aligned: the greatest stored tick at or below it, or the least
    strictly above.
  */
  lemma NearestTick(grid: Grid, spacing: Spacing, ticks: Ticks, tick: TickIndex, zeroForOne: bool, r: Option<Entry>)
    requires Storable(ticks, spacing)
    requires var m := InfosOf(grid, spacing, ticks);
             if zeroForOne then IsEntryUpTo(m, FromTick(tick, spacing), r)
             else IsEntryFrom(m, FromTick(tick, spacing) + 1, r)
    ensures match r
            case None => NextInitialized(ticks, tick, zeroForOne) == None
            case Some(Entry(at, info)) =>
              && NextInitialized(ticks, tick, zeroForOne) == Some(info.tick)
              && info.tick in ticks && info == InfoOf(grid, info.tick, ticks[info.tick])
              && MIN_TICK <= info.tick <= MAX_TICK && Aligned(info.tick, spacing) && at == FromTick(info.tick, spacing)
  {
    hide FromTick, ToTick, Half, Aligned, NextInitialized, InfosOf;
    var m := InfosOf(grid, spacing, ticks);
    NextInitializedIsNearest(ticks, tick, zeroForOne);
    forall t | t in ticks
      ensures MIN_TICK <= t <= MAX_TICK && FromTick(t, spacing) in m
      ensures m[FromTick(t, spacing)] == InfoOf(grid, t, ticks[t])
      ensures t <= tick <==> FromTick(t, spacing) <= FromTick(tick, spacing)
    {
      InfosAt(grid, spacing, ticks, t);
      IndexOrder(t, tick, spacing);
    }
    if r.Some? {
      var at, info := r.value.at, r.value.info;
      EntryIsTick(grid, spacing, ticks, at);
      var found := info.tick;
      forall t | t in ticks
        ensures FromTick(t, spacing) <= at <==> t <= found
      {
        IndexOrder(t, found, spacing);
      }
    }
  }

  lemma EntryIsTick(grid: Grid, spacing: Spacing, ticks: Ticks, i: int)
    requires Storable(ticks, spacing) && i in InfosOf(grid, spacing, ticks)
    ensures var info := InfosOf(grid, spacing, ticks)[i];
            && info.tick in ticks && MIN_TICK <= info.tick <= MAX_TICK && Aligned(info.tick, spacing)
            && info == InfoOf(grid, info.tick, ticks[info.tick]) && i == FromTick(info.tick, spacing)
  {
    hide FromTick, ToTick, Half, Aligned;
    DecodesBack(i, spacing);
  }
}
