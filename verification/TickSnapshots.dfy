/** Saving a tick store and rebuilding it: `snapshot` and `from_snapshot`. */
module TickSnapshots {
  import opened Arith
  import opened Bits
  import opened Wrappers
  import opened PoolTypes
  import opened SwapSpec
  import opened TickSlabIndexer
  import opened HierBitmaps
  import opened TickPages
  import opened PageChain
  import opened TickCodec
  import opened TickSlabs

  /** The entries below an index. */
  ghost function EntriesBelow(m: TickMap, end: int): TickMap {
    map i | i in m && i < end :: m[i]
  }

  /** One more entry is decoded. */
  lemma DecodeNext(m: TickMap, spacing: Spacing, i: int)
    requires Decodable(m, spacing) && i in m
    ensures TicksOf(EntriesBelow(m, i), spacing)[ToTick(i, spacing) := m[i].inner]
         == TicksOf(EntriesBelow(m, i + 1), spacing)
  {
    hide FromTick, ToTick, Half, Aligned;
    DecodesBack(i, spacing);
    var next := EntriesBelow(m, i + 1);
    forall t: TickIndex | Aligned(t, spacing)
      ensures FromTick(t, spacing) == i <==> t == ToTick(i, spacing)
    {
      EncodesBack(t, spacing);
    }
  }

  /** Nothing between two indexes: nothing to decode. */
  lemma DecodeGap(m: TickMap, spacing: Spacing, from: int, to: int)
    requires forall i :: from <= i < to ==> i !in m
    ensures from <= to ==> EntriesBelow(m, from) == EntriesBelow(m, to)
  {
  }

  /** The slots of one page are decoded in order. */
  method SnapshotPage(slab: TickSlab, c: nat, done: Ticks) returns (ticks: Ticks)
    requires slab.Valid() && c in slab.pages && Decodable(slab.contents, slab.spacing)
    requires done == TicksOf(EntriesBelow(slab.contents, 32 * c), slab.spacing)
    ensures slab.Valid()
    ensures ticks == TicksOf(EntriesBelow(slab.contents, 32 * c + 32), slab.spacing)
  {
    hide FromTick, ToTick, Half, Pow2, Decodable, TicksOf;
    hide slab.Valid;
    ticks := done;
    var slot := 0;
    ghost var m := slab.contents;
    while slot < 32
      invariant 0 <= slot <= 32 && slab.Valid() && c in slab.pages
      invariant ticks == TicksOf(EntriesBelow(m, 32 * c + slot), slab.spacing)
    {
      var info := PageSlot(slab, c, slot);
      if info.Some? {
        DecodeNext(m, slab.spacing, 32 * c + slot);
        PartsRoundTrip(c, slot);
        ticks := ticks[ToTick(FromParts(c, slot), slab.spacing) := info.value.inner];
      } else {
        DecodeGap(m, slab.spacing, 32 * c + slot, 32 * c + slot + 1);
      }
      slot := slot + 1;
    }
  }

  method PageSlot(slab: TickSlab, c: nat, slot: nat) returns (info: Option<TickInfo>)
    requires slab.Valid() && c in slab.pages && slot < 32
    ensures slab.Valid() && c < 65536
    ensures info == if 32 * c + slot in slab.contents then Some(slab.contents[32 * c + slot]) else None
  {
    hide Linked, Flat, SlotsOk, NonEmpty, slab.Indexed;
    Split(c, slot);
    slab.OpenAt(32 * c + slot);
    slab.PageInRange(c);
    ghost var v := slab.Views();
    info := slab.GetSlab(c).value.SlotAt(slot);
    assert slab.Views() == v;
  }

  /** `bitmap.next` on the slab's bitmap. */
  method PageAfter(slab: TickSlab, c: nat) returns (r: Option<nat>)
    requires slab.Valid() && c < 65536
    ensures slab.Valid() && IsFirstFrom(slab.pages.Keys, c + 1, r)
  {
    hide Linked, Flat, SlotsOk, NonEmpty, Layers, KeysOf, TableOk, CacheCap, MaxLiquidityPerTick;
    ghost var v := slab.Views();
    r := slab.bitmap.Next(c);
    assert slab.Views() == v;
  }

  /** No page in a range: no entry in the indexes it covers. */
  lemma NoEntriesBetween(v: Views, m: TickMap, from: int, next: Option<nat>)
    requires Flat(v, m) && IsFirstFrom(v.Keys, from, next) && 0 <= from
    ensures forall i :: i in m && 32 * from <= i ==> next.Some? && 32 * next.value <= i
  {
    forall i | i in m && 32 * from <= i
      ensures next.Some? && 32 * next.value <= i
    {
      FlatAt(v, m, i);
      assert i / 32 in v.Keys;
    }
  }

  lemma SlabEntriesBetween(slab: TickSlab, from: int, next: Option<nat>)
    requires slab.Valid() && IsFirstFrom(slab.pages.Keys, from, next) && 0 <= from
    ensures forall i :: i in slab.contents && 32 * from <= i ==> next.Some? && 32 * next.value <= i
    ensures next.Some? ==> next.value in slab.pages && next.value < 65536
  {
    hide Linked, Flat, SlotsOk, NonEmpty, slab.Indexed, IsFirstFrom, slab.PagesOk;
    slab.ViewKeys();
    NoEntriesBetween(slab.Views(), slab.contents, from, next);
    if next.Some? {
      assert next.value in slab.pages.Keys by {
        FirstIsMember(slab.pages.Keys, from, next);
      }
      slab.PageInRange(next.value);
    }
  }

  lemma FirstIsMember(s: set<int>, from: int, next: Option<nat>)
    requires IsFirstFrom(s, from, next) && next.Some?
    ensures next.value in s && from <= next.value
  {
  }

  lemma BelowEverything(m: TickMap, end: int)
    requires forall i :: i in m ==> i < end
    ensures EntriesBelow(m, end) == m
  {
  }

  /** `snapshot`: the accounting of every stored tick, by tick number. */
  method Snapshot(slab: TickSlab) returns (ticks: Ticks)
    requires slab.Valid() && Decodable(slab.contents, slab.spacing)
    ensures slab.Valid() && ticks == TicksOf(slab.contents, slab.spacing)
  {
    hide slab.Valid, Decodable, TicksOf, IsFirstFrom, EntriesBelow;
    ghost var m := slab.contents;
    ticks := map[];
    ghost var done := 0;
    var cacheIndex := slab.SearchUp(0);
    slab.ViewKeysOf();
    SlabNonNegative(slab);
    NoEntriesBelow(m, slab.spacing);
    while cacheIndex.Some?
      invariant slab.Valid() && 0 <= done <= 65536
      invariant IsFirstFrom(slab.pages.Keys, done, cacheIndex)
      invariant ticks == TicksOf(EntriesBelow(m, 32 * done), slab.spacing)
      decreases 65536 - done
    {
      SlabEntriesBetween(slab, done, cacheIndex);
      FirstIsMember(slab.pages.Keys, done, cacheIndex);
      var c := cacheIndex.value;
      DecodeGap(m, slab.spacing, 32 * done, 32 * c);
      ticks := SnapshotPage(slab, c, ticks);
      cacheIndex := PageAfter(slab, c);
      done := c + 1;
    }
    SlabEntriesBetween(slab, done, cacheIndex);
    BelowEverything(m, 32 * done);
  }

  lemma NoEntriesBelow(m: TickMap, spacing: Spacing)
    requires forall i :: i in m ==> 0 <= i
    ensures TicksOf(EntriesBelow(m, 0), spacing) == map[]
  {
    hide FromTick, Aligned;
  }

  lemma SlabNonNegative(slab: TickSlab)
    requires slab.Valid()
    ensures forall i :: i in slab.contents ==> 0 <= i
  {
    hide Linked, SlotsOk, NonEmpty, slab.Indexed;
  }

  // ---------------------------------------------------------- from_snapshot

  /** The checks on one snapshot entry, in order; None when it is accepted. */
  function EntryError(t: int, inner: TickInner, spacing: Spacing): Option<Error> {
    if !Aligned(t, spacing) then Some(InvalidTick)
    else if inner.gross == 0 || Abs(inner.net) > inner.gross then Some(InvalidTick)
    else if inner.gross > MaxLiquidityPerTick(spacing) then Some(LiquidityOverflow)
    else None
  }

  /**
    What an entry must be: a multiple of the spacing, with liquidity, no more
    net than gross, and gross within the cap; the cap alone has its own error.
  */
  lemma EntryAccepted(t: int, inner: TickInner, spacing: Spacing)
    ensures var shaped := t % spacing == 0 && 0 < inner.gross && 0 - inner.gross <= inner.net <= inner.gross;
            var fits := inner.gross <= MaxLiquidityPerTick(spacing);
            EntryError(t, inner, spacing)
            == if shaped && fits then None else Some(if shaped then LiquidityOverflow else InvalidTick)
  {
    hide MaxLiquidityPerTick;
  }

  /** The part of a tick map below a tick. */
  ghost function TicksBelow(ticks: Ticks, rest: set<int>): Ticks {
    map t | t in ticks && t !in rest :: ticks[t]
  }

  /**
    `from_snapshot`: rebuilds the store from ticks in ascending order. It
    succeeds iff every entry passes its checks, and otherwise reports the
    error of the lowest tick that fails.
  */
  method FromSnapshot(grid: Grid, spacing: Spacing, ticks: Ticks) returns (r: Result<TickSlab>)
    requires KeysInRange(ticks)
    ensures r.Ok? <==> forall t :: t in ticks ==> EntryError(t, ticks[t], spacing) == None
    ensures r.Ok? ==> r.value.Valid() && fresh(r.value.Footprint()) && r.value.spacing == spacing
                      && r.value.contents == InfosOf(grid, spacing, ticks)
    ensures r.Err? ==> exists t :: t in ticks && EntryError(t, ticks[t], spacing) == Some(r.error)
                                   && forall x :: x in ticks && x < t ==> EntryError(x, ticks[x], spacing) == None
  {
    hide EntryError, InfosOf, FromTick, CacheCap, CacheIndex, TickSlab.Valid, TickSlab.Footprint, Storable,
         TicksBelow, KeysInRange;
    var slab := new TickSlab(spacing);
    var rest := ticks.Keys;
    NothingStored(ticks);
    NoInfos(grid, spacing);
    while rest != {}
      invariant rest <= ticks.Keys
      invariant forall t, u :: t in ticks && t !in rest && u in rest ==> t < u
      invariant forall t :: t in ticks && t !in rest ==> EntryError(t, ticks[t], spacing) == None
      invariant slab.Valid() && fresh(slab.Footprint()) && slab.spacing == spacing
      invariant Storable(TicksBelow(ticks, rest), spacing)
      invariant slab.contents == InfosOf(grid, spacing, TicksBelow(ticks, rest))
      decreases rest
    {
      ghost var least := LeastMember(rest);
      var t :| t in rest && forall x :: x in rest ==> t <= x;
      var error := EntryError(t, ticks[t], spacing);
      if error.Some? {
        return Err(error.value);
      }
      OneMoreStored(ticks, rest, t);
      StoreEntry(grid, slab, TicksBelow(ticks, rest), t, ticks[t]);
      rest := rest - {t};
    }
    AllStored(ticks);
    r := Ok(slab);
  }

  /** Storing one accepted entry. */
  method StoreEntry(grid: Grid, slab: TickSlab, ghost ticks: Ticks, t: int, inner: TickInner)
    requires slab.Valid() && Storable(ticks, slab.spacing) && slab.contents == InfosOf(grid, slab.spacing, ticks)
    requires MIN_TICK <= t <= MAX_TICK && EntryError(t, inner, slab.spacing) == None
    modifies slab.Footprint()
    ensures slab.Valid() && forall o :: o in slab.Footprint() ==> o in old(slab.Footprint()) || fresh(o)
    ensures Storable(ticks[t := inner], slab.spacing) && slab.contents == InfosOf(grid, slab.spacing, ticks[t := inner])
  {
    hide EntryError, InfosOf, FromTick, CacheCap, CacheIndex, TickSlab.Valid, Storable, Half, ToTick, Pow2;
    AcceptedIsAligned(t, inner, slab.spacing);
    EncodesBack(t, slab.spacing);
    PageInCache(t, slab.spacing);
    StoreTick(grid, slab.spacing, ticks, t, inner);
    var stored := slab.Insert(FromTick(t, slab.spacing), TickInfo(t, grid(t), inner));
  }

  lemma OneMoreStored(ticks: Ticks, rest: set<int>, t: int)
    requires t in rest && rest <= ticks.Keys && KeysInRange(ticks)
    ensures MIN_TICK <= t <= MAX_TICK
    ensures TicksBelow(ticks, rest - {t}) == TicksBelow(ticks, rest)[t := ticks[t]]
  {
  }

  lemma AllStored(ticks: Ticks)
    ensures TicksBelow(ticks, {}) == ticks
  {
  }

  lemma AcceptedIsAligned(t: int, inner: TickInner, spacing: Spacing)
    requires EntryError(t, inner, spacing) == None
    ensures Aligned(t, spacing)
  {
  }

  lemma NothingStored(ticks: Ticks)
    ensures TicksBelow(ticks, ticks.Keys) == map[]
  {
  }

  /** Saving and rebuilding gives a separate store with the same contents. */
  method Rebuild(grid: Grid, slab: TickSlab) returns (r: Result<TickSlab>)
    requires slab.Valid() && Decodable(slab.contents, slab.spacing)
    requires forall i :: i in slab.contents ==>
               slab.contents[i] == InfoOf(grid, ToTick(i, slab.spacing), slab.contents[i].inner)
               && EntryError(ToTick(i, slab.spacing), slab.contents[i].inner, slab.spacing) == None
    ensures r.Ok? && r.value.Valid() && fresh(r.value.Footprint()) && r.value.contents == slab.contents
  {
    hide slab.Valid, EntryError, InfosOf, ToTick, FromTick, Half, Decodable;
    var ticks := Snapshot(slab);
    ghost var m := slab.contents;
    InfosRoundTrip(grid, slab.spacing, m);
    forall t | t in ticks
      ensures EntryError(t, ticks[t], slab.spacing) == None
    {
      InfosAt(grid, slab.spacing, ticks, t);
      EncodesBack(t, slab.spacing);
    }
    r := FromSnapshot(grid, slab.spacing, ticks);
  }
}
