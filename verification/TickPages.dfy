/** One page of 32 tick slots: src/core/concentrated/ticks/slab_value.rs. */
module TickPages {
  import opened Bits
  import opened WordSets
  import opened Wrappers
  import opened SqrtPriceMath
  import opened PoolTypes
  import opened TickSlabIndexer

  /** A stored tick: its number, its price, and its accounting. */
  datatype TickInfo = TickInfo(tick: int, price: Price, inner: TickInner)

  const DEFAULT_INFO: TickInfo := TickInfo(MIN_TICK, MIN_SQRT_PRICE, EMPTY_TICK)

  /** A stored tick and the index it was found at. */
  datatype Entry = Entry(at: nat, info: TickInfo)

  type TickMap = map<int, TickInfo>

  /** r is the first entry at or above lo. */
  ghost predicate IsEntryFrom(m: TickMap, lo: int, r: Option<Entry>) {
    match r
    case None => forall x :: x in m ==> x < lo
    case Some(Entry(at, info)) => at in m && m[at] == info && lo <= at && forall x :: x in m && lo <= x ==> at <= x
  }

  /** r is the last entry at or below hi. */
  ghost predicate IsEntryUpTo(m: TickMap, hi: int, r: Option<Entry>) {
    match r
    case None => forall x :: x in m ==> hi < x
    case Some(Entry(at, info)) => at in m && m[at] == info && at <= hi && forall x :: x in m && x <= hi ==> x <= at
  }

  class TickPage {
    const slots: array<TickInfo>
    var initializedMap: nat
    var prevIdx: Option<nat>
    var nextIdx: Option<nat>

    ghost predicate Valid()
      reads this, slots
    {
      slots.Length == 32 && initializedMap < Pow2(32)
    }

    /** The ticks present, by slot: what the occupancy map makes visible of the slots. */
    ghost function Contents(): TickMap
      requires Valid()
      reads this, slots
    {
      map s: int | 0 <= s < 32 && Bit(initializedMap, s) :: slots[s]
    }

    constructor (prevIdx: Option<nat>, nextIdx: Option<nat>)
      ensures Valid() && Contents() == map[] && fresh(slots)
      ensures this.prevIdx == prevIdx && this.nextIdx == nextIdx
    {
      slots := new TickInfo[32](_ => DEFAULT_INFO);
      initializedMap := 0;
      this.prevIdx, this.nextIdx := prevIdx, nextIdx;
      new;
      forall s: nat
        ensures !Bit(initializedMap, s)
      {
        BitOfZero(s);
      }
    }

    method Initialized() returns (count: nat)
      requires Valid()
      ensures count == 0 <==> Contents() == map[]
    {
      hide Bit, CountOnes;
      count := CountOnes(initializedMap);
      CountOnesZero(initializedMap);
      if initializedMap == 0 {
        forall s: nat
          ensures !Bit(initializedMap, s)
        {
          BitOfZero(s);
        }
      } else {
        EndBits(initializedMap, 32);
        assert TrailingZeros(initializedMap) in Contents();
      }
    }

    method Insert(index: nat, info: TickInfo)
      requires Valid() && index < Pow2(21)
      modifies this, slots
      ensures Valid() && Contents() == old(Contents())[index % 32 := info]
      ensures prevIdx == old(prevIdx) && nextIdx == old(nextIdx)
    {
      hide Bit, Or, OneBit, SlotIndex, Pow2;
      PartsAre(index);
      WordWith(initializedMap, index % 32, 32);
      slots[SlotIndex(index)] := info;
      initializedMap := Or(initializedMap, OneBit(SlotIndex(index), 32));
    }

    method Get(index: nat) returns (r: Option<TickInfo>)
      requires Valid() && index < Pow2(21)
      ensures r == if index % 32 in Contents() then Some(Contents()[index % 32]) else None
    {
      hide Bit, And, OneBit, SlotIndex;
      PartsAre(index);
      TestWord(initializedMap, index % 32, 32);
      if And(initializedMap, OneBit(SlotIndex(index), 32)) != 0 {
        r := Some(slots[SlotIndex(index)]);
      } else {
        r := None;
      }
    }

    /** One step of `initialized_slots`: the tick of a slot whose occupancy bit is set. */
    method SlotAt(slot: nat) returns (r: Option<TickInfo>)
      requires Valid() && slot < 32
      ensures r == if slot in Contents() then Some(Contents()[slot]) else None
    {
      hide Bit, And, OneBit;
      TestWord(initializedMap, slot, 32);
      r := if And(initializedMap, OneBit(slot, 32)) != 0 then Some(slots[slot]) else None;
    }

    /** Writing through `get_mut`: replaces the accounting of a present tick. */
    method SetInner(index: nat, inner: TickInner)
      requires Valid() && index < Pow2(21) && index % 32 in Contents()
      modifies slots
      ensures Valid()
      ensures Contents() == old(Contents())[index % 32 := old(Contents()[index % 32]).(inner := inner)]
    {
      hide Bit, SlotIndex;
      PartsAre(index);
      slots[SlotIndex(index)] := slots[SlotIndex(index)].(inner := inner);
    }

    /** Clears only the occupancy bit; the payload stays behind, invisible. */
    method Remove(index: nat)
      requires Valid() && index < Pow2(21)
      modifies this
      ensures Valid() && Contents() == old(Contents()) - {index % 32}
      ensures prevIdx == old(prevIdx) && nextIdx == old(nextIdx)
    {
      hide Bit, And, OneBit, Not, SlotIndex, Pow2;
      PartsAre(index);
      WordWithout(initializedMap, index % 32, 32);
      initializedMap := And(initializedMap, Not(OneBit(SlotIndex(index), 32), 32));
    }

    method SetPrevIdx(idx: Option<nat>)
      requires Valid()
      modifies this
      ensures Valid() && Contents() == old(Contents())
      ensures prevIdx == idx && nextIdx == old(nextIdx)
    {
      prevIdx := idx;
    }

    method SetNextIdx(idx: Option<nat>)
      requires Valid()
      modifies this
      ensures Valid() && Contents() == old(Contents())
      ensures nextIdx == idx && prevIdx == old(prevIdx)
    {
      nextIdx := idx;
    }

    /** Strictly above the index's slot. */
    method NextSlot(index: nat) returns (r: Option<Entry>)
      requires Valid() && index < Pow2(21)
      ensures IsEntryFrom(Contents(), index % 32 + 1, r)
    {
      hide Bit, And, Shl, TrailingZeros, SlotIndex, Pow2;
      PartsAre(index);
      var slot := SlotIndex(index);
      if slot == 31 {
        return None;
      }
      var mask := Shl(Pow2(32) - 1, slot + 1, 32);
      forall i: nat
        ensures Bit(mask, i) <==> slot + 1 <= i < 32
      {
        ShiftedOnes(slot + 1, 32, i);
      }
      LowestIn(initializedMap, mask, slot + 1, 32);
      var candidates := And(initializedMap, mask);
      if candidates == 0 {
        return None;
      }
      var next := TrailingZeros(candidates);
      r := Some(Entry(next, slots[next]));
    }

    /** Strictly below the index's slot. */
    method PrevSlot(index: nat) returns (r: Option<Entry>)
      requires Valid() && index < Pow2(21)
      ensures IsEntryUpTo(Contents(), index % 32 - 1, r)
    {
      hide Bit, And, OneBit, HighestSetBit, SlotIndex, Pow2;
      PartsAre(index);
      var slot := SlotIndex(index);
      if slot == 0 {
        return None;
      }
      OnesBelow(slot, 32, 0);
      var mask := OneBit(slot, 32) - 1;
      forall i: nat
        ensures Bit(mask, i) <==> i < slot
      {
        OnesBelow(slot, 32, i);
      }
      HighestIn(initializedMap, mask, slot, 32);
      var candidates := And(initializedMap, mask);
      if candidates == 0 {
        return None;
      }
      var prev := HighestSetBit(candidates, 32);
      r := Some(Entry(prev, slots[prev]));
    }

    method FirstSlot() returns (r: Option<Entry>)
      requires Valid()
      ensures IsEntryFrom(Contents(), 0, r)
    {
      hide Bit, TrailingZeros;
      if initializedMap == 0 {
        NoBits();
        return None;
      }
      EndBits(initializedMap, 32);
      var first := TrailingZeros(initializedMap);
      r := Some(Entry(first, slots[first]));
    }

    method LastSlot() returns (r: Option<Entry>)
      requires Valid()
      ensures IsEntryUpTo(Contents(), 31, r)
    {
      hide Bit, HighestSetBit;
      if initializedMap == 0 {
        NoBits();
        return None;
      }
      EndBits(initializedMap, 32);
      var last := HighestSetBit(initializedMap, 32);
      r := Some(Entry(last, slots[last]));
    }
  }

  lemma NoBits()
    ensures forall i: nat :: !Bit(0, i)
  {
    forall i: nat
      ensures !Bit(0, i)
    {
      BitOfZero(i);
    }
  }
}
