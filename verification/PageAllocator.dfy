/**
  The page allocator behind the tick slab: stable keys, freed keys reused in
  last-in-first-out order through a chain kept in the vacant cells.
*/
module PageAllocator {
  import opened Wrappers
  import opened ActiveLiquidity
  import opened TickPages

  datatype Cell = Vacant(next: nat) | Occupied(page: TickPage)

  /** Where the i-th vacant cell of a chain points: to the next one, or to the first cell not yet created. */
  ghost function ChainedTo(chain: seq<nat>, end: nat, i: nat): nat
    requires i < |chain|
  {
    if i + 1 < |chain| then chain[i + 1] else end
  }

  /** The chain holds exactly the vacant cells, each once, each pointing to the next. */
  ghost predicate IsChain(cells: seq<Cell>, chain: seq<nat>) {
    && (forall i, j :: 0 <= i < j < |chain| ==> chain[i] != chain[j])
    && (forall i :: 0 <= i < |chain| ==>
          chain[i] < |cells| && cells[chain[i]] == Vacant(ChainedTo(chain, |cells|, i)))
    && (forall k :: 0 <= k < |cells| && cells[k].Vacant? ==> k in chain)
  }

  lemma ChainPushed(cells: seq<Cell>, chain: seq<nat>, key: nat)
    requires IsChain(cells, chain) && key < |cells| && cells[key].Occupied?
    ensures IsChain(cells[key := Vacant(if chain == [] then |cells| else chain[0])], [key] + chain)
  {
    var cells', chain' := cells[key := Vacant(if chain == [] then |cells| else chain[0])], [key] + chain;
    forall i | 0 <= i < |chain'|
      ensures chain'[i] < |cells'| && cells'[chain'[i]] == Vacant(ChainedTo(chain', |cells'|, i))
    {
      if i > 0 {
        assert cells[chain[i - 1]] == Vacant(ChainedTo(chain, |cells|, i - 1));
      }
    }
    forall i, j | 0 <= i < j < |chain'|
      ensures chain'[i] != chain'[j]
    {
      assert cells[chain[j - 1]] == Vacant(ChainedTo(chain, |cells|, j - 1));
    }
  }

  lemma ChainTail(chain: seq<nat>, end: nat, i: nat)
    requires i + 1 < |chain|
    ensures ChainedTo(chain[1..], end, i) == ChainedTo(chain, end, i + 1)
  {
  }

  lemma ChainPopped(cells: seq<Cell>, chain: seq<nat>, page: TickPage)
    requires IsChain(cells, chain) && chain != []
    ensures chain[0] < |cells| && cells[chain[0]] == Vacant(ChainedTo(chain, |cells|, 0))
    ensures IsChain(cells[chain[0] := Occupied(page)], chain[1..])
  {
    hide ChainedTo;
    var cells', chain' := cells[chain[0] := Occupied(page)], chain[1..];
    assert forall i :: 0 <= i < |chain'| ==> chain'[i] == chain[i + 1];
    forall i | 0 <= i < |chain'|
      ensures chain'[i] < |cells'| && cells'[chain'[i]] == Vacant(ChainedTo(chain', |cells'|, i))
    {
      assert cells[chain[i + 1]] == Vacant(ChainedTo(chain, |cells|, i + 1));
      ChainTail(chain, |cells|, i);
    }
    forall k | 0 <= k < |cells'| && cells'[k].Vacant?
      ensures k in chain'
    {
      var i :| 0 <= i < |chain| && chain[i] == k;
      assert chain'[i - 1] == k;
    }
  }

  /** With no vacant cell every cell is in use, and a new one goes at the end. */
  lemma ChainEmpty(cells: seq<Cell>, page: TickPage)
    requires IsChain(cells, [])
    ensures IsChain(cells + [Occupied(page)], [])
  {
  }

  lemma VacantIsInside(cells: seq<Cell>, chain: seq<nat>)
    requires IsChain(cells, chain)
    ensures chain != [] ==> chain[0] < |cells|
  {
  }

  /** A cell in use: the vacant cells are not all there is. */
  lemma InUse(cells: seq<Cell>, chain: seq<nat>, key: nat)
    requires IsChain(cells, chain) && key < |cells| && cells[key].Occupied?
    ensures |chain| < |cells|
  {
    forall i | 0 <= i < |chain|
      ensures chain[i] < |cells| && chain[i] != key
    {
      assert cells[chain[i]] == Vacant(ChainedTo(chain, |cells|, i));
    }
    DistinctBelow(chain, |cells|, key);
  }

  /** The pages in use, by key. */
  ghost function PagesOf(cells: seq<Cell>): map<int, TickPage> {
    map k: int | 0 <= k < |cells| && cells[k].Occupied? :: cells[k].page
  }

  lemma PagesChange(cells: seq<Cell>, page: TickPage, key: nat, next: nat)
    ensures PagesOf(cells + [Occupied(page)]) == PagesOf(cells)[|cells| := page]
    ensures key < |cells| ==> PagesOf(cells[key := Occupied(page)]) == PagesOf(cells)[key := page]
    ensures key < |cells| ==> PagesOf(cells[key := Vacant(next)]) == PagesOf(cells) - {key}
  {
  }

  class PageAllocator {
    var cells: seq<Cell>
    var next: nat
    var count: nat
    ghost var vacant: seq<nat>  // the chain of vacant cells, from `next` on

    ghost function Pages(): map<int, TickPage>
      reads this
    {
      PagesOf(cells)
    }

    ghost predicate Valid()
      reads this
    {
      && IsChain(cells, vacant)
      && next == (if vacant == [] then |cells| else vacant[0])
      && count + |vacant| == |cells|
    }

    constructor ()
      ensures Valid() && cells == [] && count == 0
    {
      cells, next, count, vacant := [], 0, 0, [];
    }

    /** Stores a page under a key not in use; the cells grow only when all of them are in use. */
    method Insert(page: TickPage) returns (key: nat)
      requires Valid()
      modifies this
      ensures Valid() && count == old(count) + 1
      ensures key !in old(Pages()) && Pages() == old(Pages())[key := page]
      ensures |cells| == if old(count) == |old(cells)| then |old(cells)| + 1 else |old(cells)|
    {
      hide IsChain, PagesOf;
      VacantIsInside(cells, vacant);
      key := next;
      PagesChange(cells, page, key, 0);
      KeyOutside(cells, key);
      if key == |cells| {
        ChainEmpty(cells, page);
        cells := cells + [Occupied(page)];
        next := key + 1;
      } else {
        ChainPopped(cells, vacant, page);
        next := cells[key].next;
        cells := cells[key := Occupied(page)];
        vacant := vacant[1..];
      }
      count := count + 1;
    }

    /** Frees a key; None when it is not in use. */
    method TryRemove(key: nat) returns (r: Option<TickPage>)
      requires Valid()
      modifies this
      ensures Valid()
      ensures r == if key in old(Pages()) then Some(old(Pages())[key]) else None
      ensures Pages() == old(Pages()) - {key}
      ensures |cells| == |old(cells)| && count == if key in old(Pages()) then old(count) - 1 else old(count)
    {
      hide IsChain, PagesOf;
      KeyOutside(cells, key);
      if key >= |cells| || cells[key].Vacant? {
        return None;
      }
      InUse(cells, vacant, key);
      ChainPushed(cells, vacant, key);
      PagesChange(cells, cells[key].page, key, next);
      r := Some(cells[key].page);
      cells := cells[key := Vacant(next)];
      vacant := [key] + vacant;
      next := key;
      count := count - 1;
    }
  }

  lemma KeyOutside(cells: seq<Cell>, key: nat)
    ensures key in PagesOf(cells) <==> key < |cells| && cells[key].Occupied?
    ensures key in PagesOf(cells) ==> PagesOf(cells)[key] == cells[key].page
    ensures key !in PagesOf(cells) ==> PagesOf(cells) - {key} == PagesOf(cells)
  {
  }

  /** Distinct numbers below n that miss one of them are fewer than n. */
  lemma DistinctBelow(s: seq<nat>, n: nat, missing: nat)
    requires forall i, j :: 0 <= i < j < |s| ==> s[i] != s[j]
    requires forall i :: 0 <= i < |s| ==> s[i] < n && s[i] != missing
    requires missing < n
    ensures |s| < n
  {
    var members := MembersOf(s);
    assert missing !in members;
    RangeSize(members + {missing}, 0, n - 1);
  }

  lemma {:induction false} MembersOf(s: seq<nat>) returns (members: set<int>)
    requires forall i, j :: 0 <= i < j < |s| ==> s[i] != s[j]
    ensures |members| == |s|
    ensures forall k :: k in members <==> k in s
  {
    members := {};
    if s != [] {
      var last := |s| - 1;
      var rest := MembersOf(s[..last]);
      assert s[last] !in rest;
      members := rest + {s[last]};
      assert s == s[..last] + [s[last]];
    }
  }
}
