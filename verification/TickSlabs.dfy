/**
  The tick store of src/core/concentrated/ticks/slab.rs, proved to be a sorted
  map from tick index to tick data.
*/
module TickSlabs {
  import opened Bits
  import opened Words
  import opened Wrappers
  import opened PoolTypes
  import opened Sums
  import opened ActiveLiquidity
  import opened SwapSpec
  import opened TickSlabIndexer
  import opened HierBitmaps
  import opened TickPages
  import opened PageAllocator
  import opened PageChain

  /** All pages but one are non-empty. */
  ghost predicate NonEmptyBut(v: Views, c: int) {
    forall d :: d in v && d != c ==> v[d].ticks != map[]
  }

  /** Marks a page that is not allocated. */
  const INITIAL_CACHE_VALUE: nat := 65535

  /** The lookup table leads every allocated page to its own key, and every other one to the sentinel. */
  ghost predicate TableOk(cache: seq<nat>, stored: map<int, TickPage>, pages: map<int, TickPage>) {
    && (forall c :: c in pages ==> 0 <= c < |cache| && cache[c] in stored && stored[cache[c]] == pages[c])
    && (forall c :: 0 <= c < |cache| && c !in pages ==> cache[c] == INITIAL_CACHE_VALUE)
    && (forall c, d :: c in pages && d in pages && c != d ==> cache[c] != cache[d])
  }

  lemma TableAdds(cache: seq<nat>, stored: map<int, TickPage>, pages: map<int, TickPage>, c: nat, key: nat,
                  page: TickPage)
    requires TableOk(cache, stored, pages) && c < |cache| && c !in pages && key !in stored
    ensures TableOk(cache[c := key], stored[key := page], pages[c := page])
  {
  }

  lemma TableDrops(cache: seq<nat>, stored: map<int, TickPage>, pages: map<int, TickPage>, c: int)
    requires TableOk(cache, stored, pages) && c in pages
    ensures 0 <= c < |cache| && cache[c] in stored && stored[cache[c]] == pages[c]
    ensures TableOk(cache[c := INITIAL_CACHE_VALUE], stored - {cache[c]}, pages - {c})
  {
  }

  class TickSlab {
    const bitmap: HierBitmap
    const cache: array<nat>
    const values: PageAllocator
    const spacing: Spacing
    const maxLiquidity: nat
    ghost var pages: map<int, TickPage>  // the allocated pages by cache index
    ghost var contents: TickMap          // the stored ticks by index

    ghost function PageObjects(): set<object>
      reads this`pages
    {
      (set c | c in pages :: pages[c] as object) + (set c | c in pages :: pages[c].slots as object)
    }

    ghost function Footprint(): set<object>
      reads this`pages
    {
      {this, bitmap, bitmap.layer0, bitmap.layer1, cache, values} + PageObjects()
    }

    /** Bitmap, lookup table and allocator agree on which pages exist and where they are. */
    ghost predicate Indexed()
      reads this`pages, bitmap, bitmap.layer0, bitmap.layer1, cache, values
    {
      && maxLiquidity == MaxLiquidityPerTick(spacing)
      && bitmap.Valid() && values.Valid()
      && cache != bitmap.layer0 && cache != bitmap.layer1
      && bitmap.cap == cache.Length == CacheCap(spacing)
      && bitmap.Keys() == pages.Keys
      && |values.cells| <= cache.Length && values.count == |pages|
      && TableOk(cache[..], values.Pages(), pages)
    }

    ghost predicate PagesOk()
      reads this`pages, PageObjects()
    {
      && (forall c :: c in pages ==> pages[c].Valid())
      && (forall c, d :: c in pages && d in pages && c != d ==>
            pages[c] != pages[d] && pages[c].slots != pages[d].slots)
    }

    ghost function Views(): Views
      requires PagesOk()
      reads this`pages, PageObjects()
    {
      map c | c in pages :: PageView(pages[c].Contents(), pages[c].prevIdx, pages[c].nextIdx)
    }

    /** Everything but that no page is empty. */
    ghost predicate Consistent()
      reads this, Footprint()
    {
      Indexed() && PagesOk() && Linked(Views()) && SlotsOk(Views()) && Flat(Views(), contents)
    }

    ghost predicate Valid()
      reads this, Footprint()
    {
      Consistent() && NonEmpty(Views())
    }

    lemma Open()
      requires Consistent()
      ensures Indexed() && PagesOk() && Linked(Views()) && SlotsOk(Views()) && Flat(Views(), contents)
    {
    }

    lemma Close(v: Views)
      requires Indexed() && PagesOk() && Views() == v && Linked(v) && SlotsOk(v) && Flat(v, contents)
      ensures Consistent()
      ensures NonEmpty(v) ==> Valid()
    {
    }

    constructor (spacing: Spacing)
      ensures Valid() && fresh(Footprint()) && contents == map[] && this.spacing == spacing
    {
      hide CacheCap, MaxLiquidityPerTick, Layers, KeysOf, IsChain, PagesOf, Pow2;
      CacheCapBounds(spacing);
      var cap := CacheCap(spacing);
      bitmap := new HierBitmap(cap);
      cache := new nat[cap](_ => INITIAL_CACHE_VALUE);
      values := new PageAllocator();
      this.spacing := spacing;
      maxLiquidity := MaxLiquidityPerTick(spacing);
      pages, contents := map[], map[];
      new;
      assert Footprint() == {this, bitmap, bitmap.layer0, bitmap.layer1, cache, values};
      assert fresh(Footprint());
      assert Indexed();
      NoPages();
    }

    lemma NoPages()
      requires Indexed() && pages == map[] && contents == map[]
      ensures Valid()
    {
      hide Indexed;
      assert Views() == map[];
    }

    /** Keys of allocated pages are below the capacity, hence never the sentinel. */
    lemma KeyBelowSentinel(c: int)
      requires Indexed()
      ensures c in pages ==> cache[c] < cache.Length && cache[c] != INITIAL_CACHE_VALUE
    {
      CacheCapBounds(spacing);
    }

    /** The page of a cache index, unless the table holds the sentinel. */
    function GetSlab(cacheIndex: nat): (r: Option<TickPage>)
      requires Indexed()
      reads this`pages, bitmap, bitmap.layer0, bitmap.layer1, cache, values
      ensures r == if cacheIndex in pages then Some(pages[cacheIndex]) else None
    {
      KeyBelowSentinel(cacheIndex);
      if cacheIndex >= cache.Length || cache[cacheIndex] == INITIAL_CACHE_VALUE then None
      else Some(values.cells[cache[cacheIndex]].page)
    }

    method Get(index: nat) returns (r: Option<TickInfo>)
      requires Valid() && index < Pow2(21)
      ensures Valid()
      ensures r == if index in contents then Some(contents[index]) else None
    {
      hide Indexed, Linked, Pow2, CacheIndex;
      PartsAre(index);
      FlatAt(Views(), contents, index);
      var page := GetSlab(CacheIndex(index));
      if page.None? {
        return None;
      }
      ghost var v := Views();
      r := page.value.Get(index);
      assert Views() == v;
    }

    // ---------------------------------------------------------- traversal

    /** The page-local searches; reading a page changes nothing. */
    method SlotAfter(index: nat) returns (slot: Option<Entry>)
      requires Valid() && index < Pow2(21) && index / 32 in pages
      ensures Valid() && Views() == old(Views())
      ensures IsEntryFrom(Views()[index / 32].ticks, index % 32 + 1, slot)
    {
      hide Indexed, Linked, Flat, SlotsOk, NonEmpty, Pow2, IsEntryFrom;
      ghost var v := Views();
      slot := GetSlab(index / 32).value.NextSlot(index);
      assert Views() == v;
    }

    method SlotBefore(index: nat) returns (slot: Option<Entry>)
      requires Valid() && index < Pow2(21) && index / 32 in pages
      ensures Valid() && Views() == old(Views())
      ensures IsEntryUpTo(Views()[index / 32].ticks, index % 32 - 1, slot)
    {
      hide Indexed, Linked, Flat, SlotsOk, NonEmpty, Pow2, IsEntryUpTo;
      ghost var v := Views();
      slot := GetSlab(index / 32).value.PrevSlot(index);
      assert Views() == v;
    }

    method FirstIn(c: nat) returns (slot: Option<Entry>)
      requires Valid() && c in pages
      ensures Valid() && Views() == old(Views())
      ensures IsEntryFrom(Views()[c].ticks, 0, slot)
    {
      hide Indexed, Linked, Flat, SlotsOk, NonEmpty, IsEntryFrom;
      ghost var v := Views();
      slot := GetSlab(c).value.FirstSlot();
      assert Views() == v;
    }

    method LastIn(c: nat) returns (slot: Option<Entry>)
      requires Valid() && c in pages
      ensures Valid() && Views() == old(Views())
      ensures IsEntryUpTo(Views()[c].ticks, 31, slot)
    {
      hide Indexed, Linked, Flat, SlotsOk, NonEmpty, IsEntryUpTo;
      ghost var v := Views();
      slot := GetSlab(c).value.LastSlot();
      assert Views() == v;
    }

    /** First tick of a page given by a link or by the bitmap. */
    method FirstOf(pageIdx: Option<nat>) returns (r: Option<Entry>, ghost e: Option<Entry>)
      requires Valid() && (pageIdx.Some? ==> pageIdx.value in pages)
      ensures Valid() && Views() == old(Views())
      ensures if pageIdx.None? then e == None && r == None
              else e.Some? && IsEntryFrom(Views()[pageIdx.value].ticks, 0, e) && r == Lift(pageIdx.value, e)
    {
      hide Valid, Views, PagesOk, Consistent, Indexed, Linked, SlotsOk, Flat, NonEmpty, IsEntryFrom, FromParts;
      if pageIdx.None? {
        return None, None;
      }
      var c := pageIdx.value;
      OpenAt(32 * c);
      PageInRange(c);
      ghost var v := Views();
      var first := FirstIn(c);
      FirstExists(v, c, first);
      Packed(c, first);
      e := first;
      r := Some(Entry(FromParts(c, first.value.at), first.value.info));
    }

    method LastOf(pageIdx: Option<nat>) returns (r: Option<Entry>, ghost e: Option<Entry>)
      requires Valid() && (pageIdx.Some? ==> pageIdx.value in pages)
      ensures Valid() && Views() == old(Views())
      ensures if pageIdx.None? then e == None && r == None
              else e.Some? && IsEntryUpTo(Views()[pageIdx.value].ticks, 31, e) && r == Lift(pageIdx.value, e)
    {
      hide Valid, Views, PagesOk, Consistent, Indexed, Linked, SlotsOk, Flat, NonEmpty, IsEntryUpTo, FromParts;
      if pageIdx.None? {
        return None, None;
      }
      var c := pageIdx.value;
      OpenAt(32 * c);
      PageInRange(c);
      ghost var v := Views();
      var last := LastIn(c);
      LastExists(v, c, last);
      Packed(c, last);
      e := last;
      r := Some(Entry(FromParts(c, last.value.at), last.value.info));
    }

    lemma PageInRange(c: int)
      requires Indexed() && c in pages
      ensures 0 <= c < 65536
    {
      CacheCapBounds(spacing);
    }

    /** The next stored tick strictly above the index. */
    method Next(index: nat) returns (r: Option<Entry>)
      requires Valid() && index < Pow2(21)
      ensures Valid()
      ensures IsEntryFrom(contents, index + 1, r)
    {
      hide Valid, Views, PagesOk, Consistent, Indexed, Linked, SlotsOk, Flat, NonEmpty, Pow2, CacheIndex, IsEntryFrom,
           FromParts, IsFirstFrom, Lift;
      PartsAre(index);
      OpenAt(index);
      ghost var v := Views();
      var c := CacheIndex(index);
      var page := GetSlab(c);
      if page.None? {
        var next := SearchUp(c);
        ghost var e;
        r, e := FirstOf(next);
        NextInLaterPage(v, contents, index, c, next, e);
        return;
      }
      LinkInPages(c);
      PageInRange(c);
      var slot := SlotAfter(index);
      if slot.Some? {
        SlotInRange(v, c, index % 32 + 1, slot);
        Packed(c, slot);
        NextInPage(v, contents, index, slot);
        return Some(Entry(FromParts(c, slot.value.at), slot.value.info));
      }
      var link := page.value.nextIdx;
      ghost var e;
      r, e := FirstOf(link);
      NextInLaterPage(v, contents, index, c + 1, link, e);
    }

    /** The previous stored tick strictly below the index. */
    method Prev(index: nat) returns (r: Option<Entry>)
      requires Valid() && index < Pow2(21)
      ensures Valid()
      ensures IsEntryUpTo(contents, index - 1, r)
    {
      hide Valid, Views, PagesOk, Consistent, Indexed, Linked, SlotsOk, Flat, NonEmpty, Pow2, CacheIndex, IsEntryUpTo,
           FromParts, IsLastUpTo, Lift;
      PartsAre(index);
      OpenAt(index);
      ghost var v := Views();
      var c := CacheIndex(index);
      var page := GetSlab(c);
      if page.None? {
        var prev := SearchDown(c);
        ghost var e;
        r, e := LastOf(prev);
        PrevInEarlierPage(v, contents, index, c, prev, e);
        return;
      }
      LinkInPages(c);
      PageInRange(c);
      var slot := SlotBefore(index);
      if slot.Some? {
        SlotBelow(v, c, index % 32 - 1, slot);
        Packed(c, slot);
        PrevInPage(v, contents, index, slot);
        return Some(Entry(FromParts(c, slot.value.at), slot.value.info));
      }
      var link := page.value.prevIdx;
      ghost var upTo: int := c;
      ghost var e;
      r, e := LastOf(link);
      PrevInEarlierPage(v, contents, index, upTo - 1, link, e);
    }

    /** The bitmap lookup for an absent page. */
    method SearchUp(c: nat) returns (r: Option<nat>)
      requires Valid() && c < 65536
      ensures Valid() && Views() == old(Views()) && IsFirstFrom(Views().Keys, c, r) && (r.Some? ==> r.value in pages)
    {
      hide Linked, Flat, SlotsOk, NonEmpty, Layers, KeysOf, PagesOf, IsChain, CacheCap, MaxLiquidityPerTick;
      ghost var v := Views();
      r := bitmap.NextOrEq(c);
      assert Views() == v && v.Keys == bitmap.Keys();
    }

    method SearchDown(c: nat) returns (r: Option<nat>)
      requires Valid() && c < 65536
      ensures Valid() && Views() == old(Views()) && IsLastUpTo(Views().Keys, c, r) && (r.Some? ==> r.value in pages)
    {
      hide Linked, Flat, SlotsOk, NonEmpty, Layers, KeysOf, PagesOf, IsChain, CacheCap, MaxLiquidityPerTick;
      ghost var v := Views();
      r := bitmap.PrevOrEq(c);
      assert Views() == v && v.Keys == bitmap.Keys();
    }

    lemma LinkInPages(c: int)
      requires Valid() && c in pages
      ensures IsFirstFrom(Views().Keys, c + 1, pages[c].nextIdx) && IsLastUpTo(Views().Keys, c - 1, pages[c].prevIdx)
      ensures pages[c].nextIdx.Some? ==> pages[c].nextIdx.value in pages
      ensures pages[c].prevIdx.Some? ==> pages[c].prevIdx.value in pages
    {
      hide Indexed, Flat, NonEmpty;
      LinksAt(Views(), c);
    }

    /**
      The next initialized tick in swap direction: at or below the index going
      down, strictly above it going up.
    */
    method NextInitializedTick(index: nat, zeroForOne: bool) returns (r: Option<Entry>)
      requires Valid() && index < Pow2(21)
      ensures Valid()
      ensures if zeroForOne then IsEntryUpTo(contents, index, r) else IsEntryFrom(contents, index + 1, r)
    {
      hide Valid, Pow2;
      if zeroForOne {
        var here := Get(index);
        if here.Some? {
          return Some(Entry(index, here.value));
        }
        r := Prev(index);
      } else {
        r := Next(index);
      }
    }

    // ------------------------------------------------------------ changes

    /** Stores or replaces a tick; an index beyond the last page is refused. */
    method Insert(index: nat, info: TickInfo) returns (r: Result<TickInfo>)
      requires Valid() && index < Pow2(21)
      modifies Footprint()
      ensures Valid() && fresh(Footprint() - old(Footprint()))
      ensures if CacheIndex(index) < CacheCap(spacing) then r == Ok(info) && contents == old(contents)[index := info]
              else r == Err(InvalidTick) && contents == old(contents)
    {
      hide Pow2, CacheIndex, CacheCap, Linked, SlotsOk, Flat, Layers, KeysOf, PagesOf, IsChain, MaxLiquidityPerTick;
      PartsAre(index);
      var c := CacheIndex(index);
      if c >= cache.Length {
        return Err(InvalidTick);
      }
      var page := GetSlab(c);
      if page.None? {
        InsertEmptySlab(c);
      }
      InsertIntoPage(index, info);
      r := Ok(info);
    }

    /** A write to one page leaves the views of the others alone. */
    twostate lemma OthersKept(c: int)
      requires old(PagesOk()) && pages == old(pages)
      requires forall d :: d in pages && d != c ==> unchanged(pages[d]) && unchanged(pages[d].slots)
      ensures forall d :: d in pages && d != c ==>
                pages[d].Valid()
                && PageView(pages[d].Contents(), pages[d].prevIdx, pages[d].nextIdx) == old(Views())[d]
    {
    }

    /** Nothing of the store was written: it is still valid. */
    twostate lemma Undisturbed()
      requires old(Valid())
      requires unchanged(this) && unchanged(bitmap) && unchanged(bitmap.layer0) && unchanged(bitmap.layer1)
      requires unchanged(cache) && unchanged(values)
      requires forall c :: c in pages ==> unchanged(pages[c]) && unchanged(pages[c].slots)
      ensures Valid() && Footprint() == old(Footprint())
    {
      hide Indexed, Linked, SlotsOk, Flat, NonEmpty;
      forall c | c in pages
        ensures pages[c].Valid()
        ensures PageView(pages[c].Contents(), pages[c].prevIdx, pages[c].nextIdx) == old(Views())[c]
      {
        StaysInView(c);
      }
      assert PagesOk();
      assert Views() == old(Views());
    }

    /** `values[key].insert` on an allocated page. */
    method PutSlot(index: nat, info: TickInfo)
      requires Indexed() && PagesOk() && index < Pow2(21) && index / 32 in pages
      modifies pages[index / 32], pages[index / 32].slots
      ensures Indexed() && PagesOk()
      ensures Views() == WithTicks(old(Views()), index / 32, old(Views())[index / 32].ticks[index % 32 := info])
    {
      hide Pow2, Indexed;
      var page := GetSlab(index / 32).value;
      page.Insert(index, info);
      OthersKept(index / 32);
    }

    method InsertIntoPage(index: nat, info: TickInfo)
      requires Consistent() && index < Pow2(21) && index / 32 in pages && NonEmptyBut(Views(), index / 32)
      modifies Footprint()
      ensures Valid() && Footprint() == old(Footprint())
      ensures contents == old(contents)[index := info]
    {
      hide Pow2, Linked, SlotsOk, Flat, Indexed, NonEmpty, NonEmptyBut, Consistent, Valid;
      Open();
      ghost var v := Views();
      var c := index / 32;
      SlotsAt(v, c);
      ghost var ticks := v[c].ticks[index % 32 := info];
      assert index % 32 in ticks;
      PutSlot(index, info);
      AfterReplace(v, Views(), c, ticks);
      InsertInFlat(v, Views(), contents, index, info);
      contents := contents[index := info];
      Close(WithTicks(v, c, ticks));
    }

    method Neighbours(c: nat) returns (prev: Option<nat>, next: Option<nat>)
      requires Valid() && c < cache.Length && c !in pages
      ensures Valid() && Views() == old(Views()) && PageObjects() == old(PageObjects())
      ensures IsLastUpTo(Views().Keys, c - 1, prev) && IsFirstFrom(Views().Keys, c + 1, next)
      ensures prev.Some? ==> prev.value in pages && prev.value < c
      ensures next.Some? ==> next.value in pages && c < next.value
    {
      hide Linked, Flat, SlotsOk, NonEmpty, Layers, KeysOf, PagesOf, IsChain, CacheCap, MaxLiquidityPerTick;
      ghost var v := Views();
      PageBelowSentinel(c);
      prev := bitmap.Prev(c);
      next := bitmap.Next(c);
      assert Views() == v && v.Keys == bitmap.Keys();
    }

    lemma PageBelowSentinel(c: int)
      requires Indexed() && c < cache.Length
      ensures c < cache.Length < INITIAL_CACHE_VALUE < 65536
    {
      CacheCapBounds(spacing);
    }

    method SetNextOf(d: nat, target: Option<nat>)
      requires Indexed() && PagesOk() && d in pages
      modifies pages[d]
      ensures Indexed() && PagesOk() && Views() == WithNext(old(Views()), d, target)
    {
      hide Indexed;
      GetSlab(d).value.SetNextIdx(target);
      OthersKept(d);
    }

    method SetPrevOf(d: nat, target: Option<nat>)
      requires Indexed() && PagesOk() && d in pages
      modifies pages[d]
      ensures Indexed() && PagesOk() && Views() == WithPrev(old(Views()), d, target)
    {
      hide Indexed;
      GetSlab(d).value.SetPrevIdx(target);
      OthersKept(d);
    }

    /** A fresh page enters bitmap, allocator and table. */
    method EnterPage(c: nat, page: TickPage)
      requires Indexed() && c < cache.Length && c !in pages
      modifies this`pages, bitmap, bitmap.layer0, bitmap.layer1, cache, values
      ensures Indexed() && pages == old(pages)[c := page]
    {
      hide Layers, KeysOf, PagesOf, IsChain, CacheCap, MaxLiquidityPerTick, TableOk, PageAllocator.Valid,
           HierBitmap.Valid;
      PageBelowSentinel(c);
      PagesFit(c);
      ghost var table, stored := cache[..], values.Pages();
      var changed := bitmap.Set(c);
      var key := values.Insert(page);
      KeyOutside(values.cells, key);
      SetKey(c, key);
      TableAdds(table, stored, pages, c, key, page);
      pages := pages[c := page];
    }

    /** The key as the table stores it, in 16 bits. */
    method SetKey(c: nat, key: nat)
      requires c < cache.Length && key < 65536
      modifies cache
      ensures cache[..] == old(cache[..])[c := key]
    {
      cache[c] := key % 65536;
    }

    /** A page not yet in use joins the views. */
    twostate lemma PageJoins(c: nat, new page: TickPage)
      requires old(PagesOk()) && c !in old(pages) && pages == old(pages)[c := page]
      requires page.Valid() && page !in old(PageObjects()) && page.slots !in old(PageObjects())
      requires forall d :: d in old(pages) ==> unchanged(pages[d]) && unchanged(pages[d].slots)
      ensures PagesOk()
      ensures Views() == old(Views())[c := PageView(page.Contents(), page.prevIdx, page.nextIdx)]
    {
      forall d | d in old(pages)
        ensures pages[d] != page && pages[d].slots != page.slots && pages[d].Valid()
        ensures PageView(pages[d].Contents(), pages[d].prevIdx, pages[d].nextIdx) == old(Views())[d]
      {
        StaysInView(d);
        assert pages[d] in old(PageObjects()) && pages[d].slots in old(PageObjects());
      }
      assert PagesOk();
      assert Views().Keys == old(Views()).Keys + {c};
    }

    twostate lemma StaysInView(d: int)
      requires old(PagesOk()) && d in old(pages) && d in pages && pages[d] == old(pages[d])
      requires unchanged(pages[d]) && unchanged(pages[d].slots)
      ensures pages[d].Valid()
      ensures PageView(pages[d].Contents(), pages[d].prevIdx, pages[d].nextIdx) == old(Views())[d]
    {
    }

    /** The allocator cannot outgrow the table: a page is still missing. */
    lemma PagesFit(c: int)
      requires Indexed() && 0 <= c < cache.Length && c !in pages
      ensures |pages| < cache.Length
    {
      hide Layers, KeysOf, PagesOf, IsChain, CacheCap, MaxLiquidityPerTick;
      RangeSize(pages.Keys + {c}, 0, cache.Length - 1);
    }

    /** Both neighbours now lead to page c. */
    method LinkNeighbours(c: nat, prev: Option<nat>, next: Option<nat>)
      requires Indexed() && PagesOk()
      requires (prev.Some? ==> prev.value in pages) && (next.Some? ==> next.value in pages)
      modifies PageObjects()
      ensures Indexed() && PagesOk() && Views() == LinkTo(old(Views()), c, prev, next)
      ensures pages == old(pages) && contents == old(contents) && PageObjects() == old(PageObjects())
    {
      hide Indexed, PagesOk;
      ViewKeys();
      if prev.Some? {
        InPageObjects(prev.value);
        SetNextOf(prev.value, Some(c));
      }
      ViewKeys();
      if next.Some? {
        InPageObjects(next.value);
        SetPrevOf(next.value, Some(c));
      }
    }

    /** The objects of one page and those of the others. */
    twostate lemma PageObjectsWith(c: int)
      requires c in pages && c !in old(pages) && pages == old(pages)[c := pages[c]]
      ensures PageObjects() == old(PageObjects()) + {pages[c], pages[c].slots}
    {
      assert pages.Keys == old(pages).Keys + {c};
      forall o: object | o in PageObjects()
        ensures o in old(PageObjects()) + {pages[c], pages[c].slots}
      {
        var d :| d in pages && (o == pages[d] || o == pages[d].slots);
        assert d == c || (d in old(pages) && pages[d] == old(pages)[d]);
      }
      forall o: object | o in old(PageObjects()) + {pages[c], pages[c].slots}
        ensures o in PageObjects()
      {
        if o in old(PageObjects()) {
          var d :| d in old(pages) && (o == old(pages)[d] || o == old(pages)[d].slots);
          assert d in pages && pages[d] == old(pages)[d];
        }
      }
    }

    lemma ViewKeys()
      requires PagesOk()
      ensures Views().Keys == pages.Keys
    {
    }

    lemma ViewKeysOf()
      requires Valid()
      ensures Views().Keys == pages.Keys
    {
    }

    lemma InPageObjects(c: int)
      requires c in pages
      ensures pages[c] in PageObjects() && pages[c].slots in PageObjects()
    {
    }

    /** An empty page with the given links is created and entered. */
    method AddPage(c: nat, prev: Option<nat>, next: Option<nat>) returns (page: TickPage)
      requires Indexed() && PagesOk() && c < cache.Length && c !in pages
      modifies this`pages, bitmap, bitmap.layer0, bitmap.layer1, cache, values
      ensures Indexed() && PagesOk() && pages.Keys == old(pages.Keys) + {c} && contents == old(contents)
      ensures fresh(page) && fresh(page.slots) && PageObjects() == old(PageObjects()) + {page, page.slots}
      ensures Views() == old(Views())[c := PageView(map[], prev, next)]
    {
      hide Indexed;
      page := new TickPage(prev, next);
      EnterPage(c, page);
      PageJoins(c, page);
      PageObjectsWith(c);
    }

    twostate lemma FootprintGrows()
      ensures Footprint() - old(Footprint()) <= PageObjects() - old(PageObjects())
    {
      hide PageObjects;
    }

    /** Links an empty page between its neighbours, and enters it in bitmap, allocator and table. */
    method InsertEmptySlab(c: nat)
      requires Valid() && c < cache.Length && c !in pages
      modifies Footprint()
      ensures Consistent() && fresh(Footprint() - old(Footprint()))
      ensures pages.Keys == old(pages.Keys) + {c} && NonEmptyBut(Views(), c)
      ensures contents == old(contents)
    {
      hide Linked, SlotsOk, Flat, Indexed, NonEmpty, NonEmptyBut, PagesOk, Views, Adds, IsLastUpTo, IsFirstFrom,
           PageObjects;
      ghost var v := Views();
      ViewKeys();
      var prev, next := Neighbours(c);
      LinkNeighbours(c, prev, next);
      var page := AddPage(c, prev, next);
      FootprintGrows();
      AddsIs(v, c, prev, next);
      AddKeepsLinks(v, Views(), contents, c, prev, next);
      AddKeepsNonEmpty(v, Views(), c, prev, next);
      Close(Views());
    }

    method PutInner(index: nat, inner: TickInner)
      requires Indexed() && PagesOk() && index < Pow2(21)
      requires index / 32 in pages && index % 32 in Views()[index / 32].ticks
      modifies pages[index / 32].slots
      ensures Indexed() && PagesOk()
      ensures var v := old(Views());
              var ticks := v[index / 32].ticks;
              Views() == WithTicks(v, index / 32, ticks[index % 32 := ticks[index % 32].(inner := inner)])
    {
      hide Pow2, Indexed;
      GetSlab(index / 32).value.SetInner(index, inner);
      OthersKept(index / 32);
    }

    /**
      Mutates a present tick in place, also when the update then reports an
      error; a missing one is reported and changes nothing.
    */
    method UpdateInitializedTick<T>(index: nat, update: TickInfo -> (TickInner, Result<T>)) returns (r: Result<T>)
      requires Valid() && index < Pow2(21)
      modifies Footprint()
      ensures Valid() && Footprint() == old(Footprint())
      ensures if index in old(contents)
              then var (inner, result) := update(old(contents)[index]);
                   r == result && contents == old(contents)[index := old(contents)[index].(inner := inner)]
              else r == Err(MissingInitializedTick) && contents == old(contents)
    {
      hide Pow2, Linked, SlotsOk, Flat, Indexed, NonEmpty, NonEmptyBut, Consistent, Valid, Views, PagesOk;
      var found := Get(index);
      if found.None? {
        return Err(MissingInitializedTick);
      }
      var (inner, result) := update(found.value);
      OpenAt(index);
      ghost var v := Views();
      PutInner(index, inner);
      ChangeInFlat(v, contents, index, found.value.(inner := inner));
      contents := contents[index := found.value.(inner := inner)];
      Close(Views());
      r := result;
    }

    /** A stored index has a page and a slot. */
    lemma OpenAt(index: nat)
      requires Valid()
      ensures Indexed() && PagesOk() && Linked(Views()) && SlotsOk(Views()) && Flat(Views(), contents)
      ensures NonEmpty(Views())
      ensures Views().Keys == pages.Keys
      ensures index in contents <==> index / 32 in pages && index % 32 in Views()[index / 32].ticks
      ensures index in contents ==> contents[index] == Views()[index / 32].ticks[index % 32]
    {
      hide Indexed, Linked, SlotsOk, NonEmpty;
      FlatAt(Views(), contents, index);
    }

    /** `cross_tick`: flips the outside growth of a stored tick and returns its net liquidity. */
    method CrossTick(index: nat, growth0: U256, growth1: U256) returns (r: Result<I128>)
      requires Valid() && index < Pow2(21)
      modifies Footprint()
      ensures Valid() && Footprint() == old(Footprint())
      ensures if index in old(contents)
              then r == Ok(old(contents)[index].inner.net)
                   && contents == old(contents)[index := old(contents)[index].(
                        inner := Flip(old(contents)[index].inner, growth0, growth1))]
              else r == Err(MissingInitializedTick) && contents == old(contents)
    {
      hide Pow2, Consistent, Valid, Footprint;
      r := UpdateInitializedTick(index, (info: TickInfo) => (Flip(info.inner, growth0, growth1), Ok(info.inner.net)));
    }

    /** Clears a slot of an allocated page; reports whether the page is now empty. */
    method ClearSlot(index: nat) returns (emptied: bool)
      requires Indexed() && PagesOk() && index < Pow2(21) && index / 32 in pages
      modifies pages[index / 32]
      ensures Indexed() && PagesOk()
      ensures Views() == WithTicks(old(Views()), index / 32, old(Views())[index / 32].ticks - {index % 32})
      ensures emptied <==> Views()[index / 32].ticks == map[]
    {
      hide Pow2, Indexed, PagesOk, Views;
      RemoveSlot(index);
      emptied := IsEmptied(index / 32);
    }

    method RemoveSlot(index: nat)
      requires Indexed() && PagesOk() && index < Pow2(21) && index / 32 in pages
      modifies pages[index / 32]
      ensures Indexed() && PagesOk()
      ensures Views() == WithTicks(old(Views()), index / 32, old(Views())[index / 32].ticks - {index % 32})
    {
      hide Pow2, Indexed;
      GetSlab(index / 32).value.Remove(index);
      OthersKept(index / 32);
    }

    /** Whether an allocated page holds no tick. */
    method IsEmptied(c: nat) returns (emptied: bool)
      requires Indexed() && PagesOk() && c in pages
      ensures Indexed() && PagesOk() && Views() == old(Views())
      ensures emptied <==> Views()[c].ticks == map[]
    {
      hide Indexed;
      ghost var v := Views();
      var count := GetSlab(c).value.Initialized();
      assert Views() == v;
      emptied := count == 0;
    }

    /** The neighbours of a page are linked to each other. */
    method UnlinkNeighbours(prev: Option<nat>, next: Option<nat>)
      requires Indexed() && PagesOk()
      requires (prev.Some? ==> prev.value in pages) && (next.Some? ==> next.value in pages)
      modifies PageObjects()
      ensures Indexed() && PagesOk() && Views() == LinkAcross(old(Views()), prev, next)
      ensures pages == old(pages) && contents == old(contents) && PageObjects() == old(PageObjects())
    {
      hide Indexed, PagesOk;
      ViewKeys();
      if next.Some? {
        InPageObjects(next.value);
        SetPrevOf(next.value, prev);
      }
      ViewKeys();
      if prev.Some? {
        InPageObjects(prev.value);
        SetNextOf(prev.value, next);
      }
    }

    /** `remove_slab`: out of table, bitmap and allocator. */
    method RemoveSlab(c: nat) returns (r: Option<TickPage>)
      requires Indexed()
      modifies this`pages, bitmap, bitmap.layer0, bitmap.layer1, cache, values
      ensures Indexed() && pages == old(pages) - {c} && contents == old(contents)
      ensures r == if c in old(pages) then Some(old(pages)[c]) else None
    {
      hide Layers, KeysOf, PagesOf, IsChain, CacheCap, MaxLiquidityPerTick, TableOk;
      var page := GetSlab(c);
      if page.None? {
        assert pages - {c} == pages;
        return None;
      }
      PageInRange(c);
      ghost var table, stored := cache[..], values.Pages();
      TableDrops(table, stored, pages, c);
      var key := cache[c];
      cache[c] := INITIAL_CACHE_VALUE;
      var changed := bitmap.Remove(c);
      r := values.TryRemove(key);
      assert cache[..] == table[c := INITIAL_CACHE_VALUE];
      assert pages == (pages - {c})[c := pages[c]];
      pages := pages - {c};
    }

    /** A page that left the views. */
    twostate lemma PageLeaves(c: int)
      requires old(PagesOk()) && pages == old(pages) - {c}
      requires forall d :: d in pages ==> unchanged(pages[d]) && unchanged(pages[d].slots)
      ensures PagesOk() && Views() == old(Views()) - {c}
    {
      forall d | d in pages
        ensures pages[d].Valid()
        ensures PageView(pages[d].Contents(), pages[d].prevIdx, pages[d].nextIdx) == old(Views())[d]
      {
        StaysInView(d);
      }
      assert PagesOk();
      assert Views().Keys == old(Views()).Keys - {c};
    }

    /** The page of a cache index is unlinked and given back. */
    method DropPage(c: nat)
      requires Indexed() && PagesOk() && c in pages
      modifies this`pages, bitmap, bitmap.layer0, bitmap.layer1, cache, values
      ensures Indexed() && PagesOk() && contents == old(contents) && pages == old(pages) - {c}
      ensures Views() == old(Views()) - {c}
    {
      hide Indexed;
      var page := RemoveSlab(c);
      PageLeaves(c);
    }

    /** Removes a tick, and its page once it is empty. */
    method Remove(index: nat)
      requires Valid() && index < Pow2(21)
      modifies Footprint()
      ensures Valid() && fresh(Footprint() - old(Footprint()))
      ensures contents == old(contents) - {index}
    {
      hide Pow2, CacheIndex, Linked, SlotsOk, Flat, Indexed, NonEmpty, NonEmptyBut, Consistent, Valid, Views,
           PagesOk, PageObjects;
      PartsAre(index);
      OpenAt(index);
      var c := CacheIndex(index);
      var page := GetSlab(c);
      if page.None? {
        assert contents - {index} == contents;
        return;
      }
      var emptied := RemoveFromPage(index);
      if emptied {
        FreePage(c, page.value);
      }
    }

    /** The tick's slot is cleared; reports whether its page is now empty. */
    method RemoveFromPage(index: nat) returns (emptied: bool)
      requires Valid() && index < Pow2(21) && index / 32 in pages
      modifies Footprint()
      ensures Consistent() && pages == old(pages) && NonEmptyBut(Views(), index / 32)
      ensures emptied <==> Views()[index / 32].ticks == map[]
      ensures !emptied ==> Valid()
      ensures contents == old(contents) - {index}
    {
      hide Pow2, Linked, SlotsOk, Flat, Indexed, NonEmpty, NonEmptyBut, Consistent, Valid, Views, PagesOk;
      var c := index / 32;
      OpenAt(index);
      ghost var v := Views();
      AllButOne(v, c);
      SlotsAt(v, c);
      InPageObjects(c);
      emptied := ClearSlot(index);
      ghost var v' := Views();
      AfterReplace(v, v', c, v[c].ticks - {index % 32});
      RemoveFromFlat(v, v', contents, index);
      contents := contents - {index};
      Close(v');
    }

    /** An empty page is unlinked from its neighbours and freed. */
    method FreePage(c: nat, page: TickPage)
      requires Consistent() && c in pages && pages[c] == page && NonEmptyBut(Views(), c) && Views()[c].ticks == map[]
      modifies Footprint()
      ensures Valid() && Footprint() <= old(Footprint())
      ensures contents == old(contents)
    {
      hide Linked, SlotsOk, Flat, Indexed, NonEmpty, NonEmptyBut, PagesOk, PageObjects, Drops;
      ghost var v := Views();
      LinkedPages(c);
      var prev, next := page.prevIdx, page.nextIdx;
      UnlinkNeighbours(prev, next);
      DropPage(c);
      DropsIs(v, c, prev, next);
      DropKeepsLinks(v, Views(), contents, c);
      DropKeepsNonEmpty(v, Views(), c);
      FootprintShrinks(c);
      Close(Views());
    }

    lemma LinkedPages(c: int)
      requires Consistent() && c in pages
      ensures Views().Keys == pages.Keys && Views()[c].prev == pages[c].prevIdx && Views()[c].next == pages[c].nextIdx
      ensures pages[c].nextIdx.Some? ==> pages[c].nextIdx.value in pages && pages[c].nextIdx.value != c
      ensures pages[c].prevIdx.Some? ==> pages[c].prevIdx.value in pages && pages[c].prevIdx.value != c
      ensures pages[c].nextIdx.Some? && pages[c].prevIdx.Some? ==> pages[c].nextIdx.value != pages[c].prevIdx.value
    {
      hide Indexed, Flat;
      LinksAt(Views(), c);
    }

    twostate lemma FootprintShrinks(c: int)
      requires pages == old(pages) - {c}
      ensures Footprint() <= old(Footprint())
    {
      forall o: object | o in PageObjects()
        ensures o in old(PageObjects())
      {
        var d :| d in pages && (o == pages[d] || o == pages[d].slots);
        assert d in old(pages) && pages[d] == old(pages)[d];
      }
    }
  }

  lemma ChangeInFlat(v: Views, m: TickMap, i: nat, info: TickInfo)
    requires Linked(v) && SlotsOk(v) && NonEmpty(v) && Flat(v, m) && i in m
    ensures i / 32 in v && i % 32 in v[i / 32].ticks
    ensures var v' := WithTicks(v, i / 32, v[i / 32].ticks[i % 32 := info]);
            Linked(v') && SlotsOk(v') && NonEmpty(v') && Flat(v', m[i := info])
  {
    hide Linked, Flat;
    FlatAt(v, m, i);
    var c := i / 32;
    var ticks := v[c].ticks[i % 32 := info];
    assert i % 32 in ticks;
    AfterReplace(v, WithTicks(v, c, ticks), c, ticks);
    InsertInFlat(v, WithTicks(v, c, ticks), m, i, info);
  }

  lemma AllButOne(v: Views, c: int)
    requires NonEmpty(v)
    ensures NonEmptyBut(v, c)
  {
  }

  lemma DropKeepsNonEmpty(v: Views, v': Views, c: int)
    requires NonEmptyBut(v, c) && Drops(v, v', c)
    ensures NonEmpty(v')
  {
  }

  lemma AddKeepsNonEmpty(v: Views, v': Views, c: nat, prev: Option<nat>, next: Option<nat>)
    requires NonEmpty(v) && c !in v && Adds(v, v', c, prev, next)
    ensures NonEmptyBut(v', c)
  {
  }

  lemma AfterReplace(v: Views, v': Views, c: int, ticks: TickMap)
    requires Linked(v) && SlotsOk(v) && Replaces(v, v', c, ticks) && NonEmptyBut(v, c)
    requires forall s :: s in ticks ==> 0 <= s < 32
    ensures Linked(v') && SlotsOk(v') && NonEmptyBut(v', c)
    ensures ticks != map[] ==> NonEmpty(v')
  {
    ReplaceKeepsLinks(v, v', c, ticks);
  }

  lemma SlotsAt(v: Views, c: int)
    requires SlotsOk(v) && c in v
    ensures forall s :: s in v[c].ticks ==> 0 <= s < 32
  {
  }

  /** A page and a slot packed into an index. */
  lemma Packed(c: nat, e: Option<Entry>)
    requires c < 65536 && e.Some? && e.value.at < 32
    ensures Some(Entry(FromParts(c, e.value.at), e.value.info)) == Lift(c, e)
  {
    hide FromParts;
    PartsRoundTrip(c, e.value.at);
  }

  lemma SlotInRange(v: Views, c: int, lo: int, r: Option<Entry>)
    requires SlotsOk(v) && c in v && r.Some? && IsEntryFrom(v[c].ticks, lo, r)
    ensures r.value.at < 32
  {
  }

  lemma SlotBelow(v: Views, c: int, hi: int, r: Option<Entry>)
    requires SlotsOk(v) && c in v && r.Some? && IsEntryUpTo(v[c].ticks, hi, r)
    ensures r.value.at < 32
  {
  }

  /** A non-empty page has a first and a last slot. */
  lemma FirstExists(v: Views, c: int, r: Option<Entry>)
    requires SlotsOk(v) && NonEmpty(v) && c in v && IsEntryFrom(v[c].ticks, 0, r)
    ensures r.Some? && r.value.at < 32
  {
    assert v[c].ticks.Keys != {};
    var s := Pick(v[c].ticks.Keys);
  }

  lemma LastExists(v: Views, c: int, r: Option<Entry>)
    requires SlotsOk(v) && NonEmpty(v) && c in v && IsEntryUpTo(v[c].ticks, 31, r)
    ensures r.Some? && r.value.at < 32
  {
    assert v[c].ticks.Keys != {};
    var s := Pick(v[c].ticks.Keys);
  }
}
