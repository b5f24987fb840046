/**
  The pages of a tick slab as values: how they chain, what flat map of ticks
  they stand for, and how each change of a page shows in that map.
*/
module PageChain {
  import opened Wrappers
  import opened HierBitmaps
  import opened TickPages

  /** A page's contents by slot, and its links. */
  datatype PageView = PageView(ticks: TickMap, prev: Option<nat>, next: Option<nat>)

  type Views = map<int, PageView>

  /** The links of every page lead to the neighbouring pages. */
  ghost predicate Linked(v: Views) {
    forall c :: c in v ==> IsLastUpTo(v.Keys, c - 1, v[c].prev) && IsFirstFrom(v.Keys, c + 1, v[c].next)
  }

  /** Page numbers are natural, slots below 32. */
  ghost predicate SlotsOk(v: Views) {
    forall c :: c in v ==> 0 <= c && forall s :: s in v[c].ticks ==> 0 <= s < 32
  }

  ghost predicate NonEmpty(v: Views) {
    forall c :: c in v ==> v[c].ticks != map[]
  }

  /** m holds at index 32*c + s what page c holds at slot s, and nothing else. */
  ghost predicate Flat(v: Views, m: TickMap) {
    && (forall i :: i in m <==> 0 <= i && i / 32 in v && i % 32 in v[i / 32].ticks)
    && (forall i :: i in m ==> m[i] == v[i / 32].ticks[i % 32])
  }

  /** The entry of page c found at a slot, as an entry of the flat map. */
  function Lift(c: nat, r: Option<Entry>): Option<Entry> {
    match r
    case None => None
    case Some(Entry(slot, info)) => Some(Entry(32 * c + slot, info))
  }

  // ----------------------------------------------------------------- lookup

  lemma FlatAt(v: Views, m: TickMap, i: nat)
    requires Flat(v, m)
    ensures i in m <==> i / 32 in v && i % 32 in v[i / 32].ticks
    ensures i in m ==> m[i] == v[i / 32].ticks[i % 32]
  {
  }

  lemma Split(c: int, s: int)
    requires 0 <= s < 32
    ensures (32 * c + s) / 32 == c && (32 * c + s) % 32 == s
  {
  }

  /** The next entry lies in the same page. */
  lemma NextInPage(v: Views, m: TickMap, i: nat, r: Option<Entry>)
    requires SlotsOk(v) && Flat(v, m) && i / 32 in v
    requires r.Some? && IsEntryFrom(v[i / 32].ticks, i % 32 + 1, r)
    ensures IsEntryFrom(m, i + 1, Lift(i / 32, r))
  {
    var slot := r.value.at;
    var at := 32 * (i / 32) + slot;
    Split(i / 32, slot);
    FlatAt(v, m, at);
    forall x | x in m && i + 1 <= x
      ensures at <= x
    {
      FlatAt(v, m, x);
    }
  }

  /** Nothing from i on in its own page, so the next entry is the first of the next page. */
  lemma NextInLaterPage(v: Views, m: TickMap, i: nat, from: int, next: Option<nat>, r: Option<Entry>)
    requires SlotsOk(v) && Flat(v, m) && IsFirstFrom(v.Keys, from, next)
    requires from == i / 32 || from == i / 32 + 1
    requires from == i / 32 ==> i / 32 !in v
    requires from == i / 32 + 1 ==> i / 32 in v && IsEntryFrom(v[i / 32].ticks, i % 32 + 1, None)
    requires if next.None? then r == None else r.Some? && IsEntryFrom(v[next.value].ticks, 0, r)
    ensures IsEntryFrom(m, i + 1, if next.None? then None else Lift(next.value, r))
  {
    if next.Some? {
      Split(next.value, r.value.at);
      FlatAt(v, m, 32 * next.value + r.value.at);
    }
    forall x | x in m && i + 1 <= x
      ensures next.Some? && 32 * next.value + r.value.at <= x
    {
      FlatAt(v, m, x);
      assert x / 32 in v.Keys;
    }
  }

  lemma PrevInPage(v: Views, m: TickMap, i: nat, r: Option<Entry>)
    requires SlotsOk(v) && Flat(v, m) && i / 32 in v
    requires r.Some? && IsEntryUpTo(v[i / 32].ticks, i % 32 - 1, r)
    ensures IsEntryUpTo(m, i - 1, Lift(i / 32, r))
  {
    var slot := r.value.at;
    var at := 32 * (i / 32) + slot;
    Split(i / 32, slot);
    FlatAt(v, m, at);
    forall x | x in m && x <= i - 1
      ensures x <= at
    {
      FlatAt(v, m, x);
    }
  }

  lemma PrevInEarlierPage(v: Views, m: TickMap, i: nat, upTo: int, prev: Option<nat>, r: Option<Entry>)
    requires SlotsOk(v) && Flat(v, m) && IsLastUpTo(v.Keys, upTo, prev)
    requires upTo == i / 32 || upTo == i / 32 - 1
    requires upTo == i / 32 ==> i / 32 !in v
    requires upTo == i / 32 - 1 ==> i / 32 in v && IsEntryUpTo(v[i / 32].ticks, i % 32 - 1, None)
    requires if prev.None? then r == None else r.Some? && IsEntryUpTo(v[prev.value].ticks, 31, r)
    ensures IsEntryUpTo(m, i - 1, if prev.None? then None else Lift(prev.value, r))
  {
    if prev.Some? {
      Split(prev.value, r.value.at);
      FlatAt(v, m, 32 * prev.value + r.value.at);
    }
    forall x | x in m && x <= i - 1
      ensures prev.Some? && x <= 32 * prev.value + r.value.at
    {
      FlatAt(v, m, x);
      assert x / 32 in v.Keys;
    }
  }

  // ---------------------------------------------------------------- changes

  ghost function WithTicks(v: Views, c: int, ticks: TickMap): Views
    requires c in v
  {
    v[c := v[c].(ticks := ticks)]
  }

  ghost function WithNext(v: Views, c: int, target: Option<nat>): Views
    requires c in v
  {
    v[c := v[c].(next := target)]
  }

  ghost function WithPrev(v: Views, c: int, target: Option<nat>): Views
    requires c in v
  {
    v[c := v[c].(prev := target)]
  }

  /** One page's ticks change, its links do not. */
  ghost predicate Replaces(v: Views, v': Views, c: int, ticks: TickMap) {
    c in v && v' == WithTicks(v, c, ticks)
  }

  lemma ReplaceKeepsLinks(v: Views, v': Views, c: int, ticks: TickMap)
    requires Replaces(v, v', c, ticks) && Linked(v)
    ensures Linked(v')
  {
    assert v'.Keys == v.Keys;
  }

  lemma InsertInFlat(v: Views, v': Views, m: TickMap, i: nat, info: TickInfo)
    requires i / 32 in v && Replaces(v, v', i / 32, v[i / 32].ticks[i % 32 := info]) && Flat(v, m)
    ensures Flat(v', m[i := info])
  {
    forall x: int | 0 <= x
      ensures x in m[i := info] <==> x / 32 in v' && x % 32 in v'[x / 32].ticks
      ensures x in m[i := info] ==> m[i := info][x] == v'[x / 32].ticks[x % 32]
    {
      FlatAt(v, m, x);
      assert x == i <==> x / 32 == i / 32 && x % 32 == i % 32;
    }
  }

  lemma RemoveFromFlat(v: Views, v': Views, m: TickMap, i: nat)
    requires i / 32 in v && Replaces(v, v', i / 32, v[i / 32].ticks - {i % 32}) && Flat(v, m)
    ensures Flat(v', m - {i})
  {
    forall x: int | 0 <= x
      ensures x in m - {i} <==> x / 32 in v' && x % 32 in v'[x / 32].ticks
      ensures x in m - {i} ==> (m - {i})[x] == v'[x / 32].ticks[x % 32]
    {
      FlatAt(v, m, x);
      assert x == i <==> x / 32 == i / 32 && x % 32 == i % 32;
    }
  }

  /** An empty page appears between its neighbours. */
  ghost predicate Adds(v: Views, v': Views, c: nat, prev: Option<nat>, next: Option<nat>) {
    && v'.Keys == v.Keys + {c}
    && v'[c] == PageView(map[], prev, next)
    && forall d :: d in v && d != c ==>
         v'[d] == v[d].(next := if prev == Some(d) then Some(c) else v[d].next,
                        prev := if next == Some(d) then Some(c) else v[d].prev)
  }

  /** The neighbours of page c lead to it. */
  ghost function LinkTo(v: Views, c: nat, prev: Option<nat>, next: Option<nat>): Views
    requires (prev.Some? ==> prev.value in v) && (next.Some? ==> next.value in v)
  {
    var w := if prev.Some? then WithNext(v, prev.value, Some(c)) else v;
    if next.Some? then WithPrev(w, next.value, Some(c)) else w
  }

  lemma AddsIs(v: Views, c: nat, prev: Option<nat>, next: Option<nat>)
    requires c !in v && (prev.Some? ==> prev.value in v) && (next.Some? ==> next.value in v)
    ensures Adds(v, LinkTo(v, c, prev, next)[c := PageView(map[], prev, next)], c, prev, next)
  {
  }

  /** The nearest members of a set around d, after c joined the set. */
  lemma NeighboursAfterAdd(s: set<int>, c: nat, d: nat, prevC: Option<nat>, nextC: Option<nat>, prev: Option<nat>,
                           next: Option<nat>)
    requires c !in s && d in s
    requires IsLastUpTo(s, c - 1, prevC) && IsFirstFrom(s, c + 1, nextC)
    requires IsLastUpTo(s, d - 1, prev) && IsFirstFrom(s, d + 1, next)
    ensures IsLastUpTo(s + {c}, d - 1, if nextC == Some(d) then Some(c) else prev)
    ensures IsFirstFrom(s + {c}, d + 1, if prevC == Some(d) then Some(c) else next)
  {
  }

  /** The nearest members of a set around d, after c left the set. */
  lemma NeighboursAfterDrop(s: set<int>, c: nat, d: nat, prevC: Option<nat>, nextC: Option<nat>, prev: Option<nat>,
                            next: Option<nat>)
    requires c in s && d in s && c != d
    requires IsLastUpTo(s, c - 1, prevC) && IsFirstFrom(s, c + 1, nextC)
    requires IsLastUpTo(s, d - 1, prev) && IsFirstFrom(s, d + 1, next)
    ensures IsLastUpTo(s - {c}, d - 1, if nextC == Some(d) then prevC else prev)
    ensures IsFirstFrom(s - {c}, d + 1, if prevC == Some(d) then nextC else next)
  {
  }

  lemma LinksAt(v: Views, c: int)
    requires Linked(v) && SlotsOk(v) && c in v
    ensures 0 <= c && IsLastUpTo(v.Keys, c - 1, v[c].prev) && IsFirstFrom(v.Keys, c + 1, v[c].next)
  {
  }

  lemma NotItsOwnNeighbour(s: set<int>, c: int, prev: Option<nat>, next: Option<nat>)
    requires IsLastUpTo(s, c - 1, prev) && IsFirstFrom(s, c + 1, next)
    ensures IsLastUpTo(s + {c}, c - 1, prev) && IsFirstFrom(s + {c}, c + 1, next)
  {
  }

  lemma AddKeepsLinks(v: Views, v': Views, m: TickMap, c: nat, prev: Option<nat>, next: Option<nat>)
    requires Linked(v) && SlotsOk(v) && Flat(v, m) && c !in v && Adds(v, v', c, prev, next)
    requires IsLastUpTo(v.Keys, c - 1, prev) && IsFirstFrom(v.Keys, c + 1, next)
    ensures Linked(v') && SlotsOk(v') && Flat(v', m)
  {
    hide IsLastUpTo, IsFirstFrom, Flat, Adds;
    assert v'.Keys == v.Keys + {c} by {
      AddLinksAt(v, v', c, prev, next, c);
    }
    forall d | d in v'
      ensures IsLastUpTo(v'.Keys, d - 1, v'[d].prev) && IsFirstFrom(v'.Keys, d + 1, v'[d].next)
    {
      AddLinksAt(v, v', c, prev, next, d);
    }
    AddKeepsFlat(v, v', m, c, prev, next);
  }

  lemma AddLinksAt(v: Views, v': Views, c: nat, prev: Option<nat>, next: Option<nat>, d: int)
    requires Linked(v) && SlotsOk(v) && c !in v && Adds(v, v', c, prev, next) && d in v.Keys + {c}
    requires IsLastUpTo(v.Keys, c - 1, prev) && IsFirstFrom(v.Keys, c + 1, next)
    ensures v'.Keys == v.Keys + {c}
    ensures IsLastUpTo(v'.Keys, d - 1, v'[d].prev) && IsFirstFrom(v'.Keys, d + 1, v'[d].next)
  {
    hide IsLastUpTo, IsFirstFrom, Linked, SlotsOk;
    if d == c {
      NotItsOwnNeighbour(v.Keys, c, prev, next);
    } else {
      LinksAt(v, d);
      NeighboursAfterAdd(v.Keys, c, d, prev, next, v[d].prev, v[d].next);
    }
  }

  lemma AddKeepsFlat(v: Views, v': Views, m: TickMap, c: nat, prev: Option<nat>, next: Option<nat>)
    requires SlotsOk(v) && Flat(v, m) && c !in v && Adds(v, v', c, prev, next)
    ensures SlotsOk(v') && Flat(v', m)
  {
    forall i: int
      ensures i in m <==> 0 <= i && i / 32 in v' && i % 32 in v'[i / 32].ticks
      ensures i in m ==> m[i] == v'[i / 32].ticks[i % 32]
    {
      if i >= 0 {
        FlatAt(v, m, i);
      }
    }
  }

  /** An empty page disappears and its neighbours are linked to each other. */
  ghost predicate Drops(v: Views, v': Views, c: int) {
    && c in v && v[c].ticks == map[]
    && v'.Keys == v.Keys - {c}
    && forall d :: d in v' ==>
         v'[d] == v[d].(next := if v[c].prev == Some(d) then v[c].next else v[d].next,
                        prev := if v[c].next == Some(d) then v[c].prev else v[d].prev)
  }

  /** The neighbours of a page are linked across it. */
  ghost function LinkAcross(v: Views, prev: Option<nat>, next: Option<nat>): Views
    requires (prev.Some? ==> prev.value in v) && (next.Some? ==> next.value in v)
  {
    var w := if next.Some? then WithPrev(v, next.value, prev) else v;
    if prev.Some? then WithNext(w, prev.value, next) else w
  }

  lemma DropsIs(v: Views, c: int, prev: Option<nat>, next: Option<nat>)
    requires c in v && v[c] == PageView(map[], prev, next)
    requires (prev.Some? ==> prev.value in v && prev.value != c) && (next.Some? ==> next.value in v && next.value != c)
    ensures Drops(v, LinkAcross(v, prev, next) - {c}, c)
  {
  }

  lemma DropKeepsLinks(v: Views, v': Views, m: TickMap, c: int)
    requires Linked(v) && SlotsOk(v) && Flat(v, m) && Drops(v, v', c)
    ensures Linked(v') && SlotsOk(v') && Flat(v', m)
  {
    hide IsLastUpTo, IsFirstFrom;
    LinksAt(v, c);
    forall d | d in v'
      ensures IsLastUpTo(v'.Keys, d - 1, v'[d].prev) && IsFirstFrom(v'.Keys, d + 1, v'[d].next)
    {
      LinksAt(v, d);
      NeighboursAfterDrop(v.Keys, c, d, v[c].prev, v[c].next, v[d].prev, v[d].next);
    }
    DropKeepsFlat(v, v', m, c);
  }

  lemma DropKeepsFlat(v: Views, v': Views, m: TickMap, c: int)
    requires SlotsOk(v) && Flat(v, m) && Drops(v, v', c)
    ensures SlotsOk(v') && Flat(v', m)
  {
    forall i: int
      ensures i in m <==> 0 <= i && i / 32 in v' && i % 32 in v'[i / 32].ticks
      ensures i in m ==> m[i] == v'[i / 32].ticks[i % 32]
    {
      if i >= 0 {
        FlatAt(v, m, i);
      }
    }
  }
}
