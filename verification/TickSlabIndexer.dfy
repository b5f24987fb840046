/**
  The order-preserving tick index of src/core/types/tick_slab_indexer.rs: its
  bit manipulation, and the plain arithmetic it amounts to.
*/
module TickSlabIndexer {
  import opened Arith
  import opened Bits
  import opened PoolTypes

  const MAX_BITS: nat := 21
  const MAX_CACHE_CAP: nat := 60496

  function SpacingBits(spacing: Spacing): int {
    31 - LeadingZeros(spacing, 32)
  }

  /** Width of the index range for a spacing. */
  function IndexBits(spacing: Spacing): (bits: nat)
    ensures 7 <= bits <= MAX_BITS
  {
    SpacingBitsRange(spacing);
    MAX_BITS - SpacingBits(spacing)
  }

  lemma SpacingBitsRange(spacing: Spacing)
    ensures 0 <= SpacingBits(spacing) <= 14
    ensures SpacingBits(spacing) == BitLen(spacing) - 1
  {
    SmallPowers();
    BitLenAtMost(spacing, 15);
    BitLenIsHighest(spacing);
  }

  lemma SmallPowers()
    ensures Pow2(5) == 32 && Pow2(15) == 32768 && Pow2(16) == 65536 && Pow2(20) == 1048576 && Pow2(21) == 2097152
    ensures Pow2(0) == 1
  {
    assert Pow2(2) == 4;
    assert Pow2(5) == 32;
    Pow2Add(5, 5);
    Pow2Add(10, 5);
    Pow2Add(10, 10);
  }

  function SignBit(spacing: Spacing): nat {
    Shl(1, IndexBits(spacing) - 1, 32)
  }

  /** `from_tick`: compress, keep the low bits, flip the sign bit. */
  function FromTick(tick: TickIndex, spacing: Spacing): nat {
    var compressed := FloorDiv(tick, spacing);
    var x: nat := compressed % Pow2(32);
    var mask := Shr(Pow2(32) - 1, 32 - IndexBits(spacing));
    Xor(And(x, mask), SignBit(spacing))
  }

  /** `to_tick`: flip the sign bit back, sign-extend, scale. */
  function ToTick(index: nat, spacing: Spacing): int {
    var unused := 32 - IndexBits(spacing);
    var raw := Xor(index, SignBit(spacing));
    var shifted := Shl(raw, unused, 32);
    var signed := if shifted >= Pow2(31) then shifted - Pow2(32) else shifted;
    FloorDiv(signed, Pow2(unused)) * spacing
  }

  /** `from_parts`, `cache_index` and `slot_index`: page and slot packed into one index. */
  function FromParts(cacheIndex: nat, slotIndex: nat): nat {
    Or(Shl(cacheIndex, 5, 32), And(slotIndex, 0x1F))
  }

  function SlotIndex(index: nat): nat {
    And(index, 0x1F)
  }

  function CacheIndex(index: nat): nat {
    And(Shr(index, 5), 0xFFFF)
  }

  /** `calculate_cache_cap`. */
  function CacheCap(spacing: Spacing): nat {
    CacheIndex(FromTick(MAX_TICK, spacing)) + 1
  }

  /** Half of the index range: where tick zero sits. */
  function Half(spacing: Spacing): nat {
    Pow2(IndexBits(spacing) - 1)
  }

  // ---------------------------------------------------------- page and slot

  lemma PartsAre(index: nat)
    requires index < Pow2(21)
    ensures SlotIndex(index) == index % 32 && CacheIndex(index) == index / 32 < 65536
  {
    SmallPowers();
    AndLowMask(index, 5);
    ShiftsAreProducts(index, 5, 32);
    AndLowMask(Shr(index, 5), 16);
    DivModUniqueInt(index / 32, 65536, 0, index / 32);
  }

  /** Packing and unpacking are inverse. */
  lemma PartsRoundTrip(cacheIndex: nat, slotIndex: nat)
    requires cacheIndex < 65536 && slotIndex < 32
    ensures FromParts(cacheIndex, slotIndex) == 32 * cacheIndex + slotIndex
    ensures CacheIndex(FromParts(cacheIndex, slotIndex)) == cacheIndex
    ensures SlotIndex(FromParts(cacheIndex, slotIndex)) == slotIndex
  {
    hide *;
    PackedIs(cacheIndex, slotIndex);
    SmallPowers();
    DivModUniqueInt(32 * cacheIndex + slotIndex, 32, cacheIndex, slotIndex);
    PartsAre(32 * cacheIndex + slotIndex);
  }

  lemma PackedIs(cacheIndex: nat, slotIndex: nat)
    requires cacheIndex < 65536 && slotIndex < 32
    ensures FromParts(cacheIndex, slotIndex) == 32 * cacheIndex + slotIndex
  {
    hide Pow2, And, Or, Shl;
    SmallPowers();
    AndLowMask(slotIndex, 5);
    DivMod(slotIndex, Pow2(5));
    Pow2Monotone(21, 32);
    ShiftsAreProducts(cacheIndex, 5, 32);
    DivMod(cacheIndex * Pow2(5), Pow2(32));
    OrDisjoint(cacheIndex, slotIndex, 5);
  }

  // ------------------------------------------------- arithmetic of the index

  lemma PowersOfIndex(spacing: Spacing)
    ensures var bits := IndexBits(spacing);
            && Pow2(bits) == 2 * Half(spacing)
            && Pow2(32) == Pow2(bits) * Pow2(32 - bits)
            && Pow2(31) == Half(spacing) * Pow2(32 - bits)
            && Pow2(bits) <= Pow2(31)
            && SignBit(spacing) == Half(spacing)
            && Shr(Pow2(32) - 1, 32 - bits) == Pow2(bits) - 1
  {
    hide SpacingBits, IndexBits, FromTick, ToTick, Pow2, Div, Mod, Shr;
    var bits := IndexBits(spacing);
    assert Pow2(bits) == 2 * Pow2(bits - 1) by {
      Pow2Step(bits - 1);
    }
    Pow2Add(bits, 32 - bits);
    Pow2Add(bits - 1, 32 - bits);
    Pow2Monotone(bits, 31);
    Pow2StrictlyMonotone(bits - 1, 32);
    DivMod(Pow2(bits - 1), Pow2(32));
    LowOnes(Pow2(bits), Pow2(32 - bits));
    ShiftsAreProducts(Pow2(32) - 1, 32 - bits, 32);
  }

  lemma LowOnes(a: nat, b: nat)
    requires a > 0 && b > 0
    ensures a * b >= 1 && Div(a * b - 1, b) == a - 1
  {
    MulMono(1, a, b);
    assert (a - 1) * b == a * b - b;
    assert (a - 1 + 1) * b == a * b;
    FloorUnique(a * b - 1, b, a - 1);
  }

  /** The compressed tick fits in the signed half range. */
  lemma CompressedRange(tick: TickIndex, spacing: Spacing)
    ensures 0 - Half(spacing) <= FloorDiv(tick, spacing) < Half(spacing)
  {
    hide *;
    var sb := SpacingBits(spacing);
    SpacingBitsRange(spacing);
    assert IndexBits(spacing) - 1 == 20 - sb && Half(spacing) == Pow2(20 - sb) by {
      HalfIs(spacing);
    }
    SmallPowers();
    Pow2Add(20 - sb, sb);
    BitLenBounds(spacing);
    TickBounds(tick);
    HalfCovers(Half(spacing), Pow2(sb), spacing);
    FloorDivAtLeast(tick, spacing, 0 - Half(spacing));
    FloorDivAtLeast(tick, spacing, Half(spacing));
  }

  lemma TickBounds(tick: TickIndex)
    ensures 0 - 1048576 < tick < 1048576
  {
  }

  lemma HalfIs(spacing: Spacing)
    ensures IndexBits(spacing) - 1 == 20 - SpacingBits(spacing)
    ensures Half(spacing) == Pow2(IndexBits(spacing) - 1)
  {
  }

  lemma HalfCovers(half: nat, low: nat, spacing: nat)
    requires half * low == 1048576 && low <= spacing
    ensures half * spacing >= 1048576 && (0 - half) * spacing <= 0 - 1048576
  {
    MulMono(low, spacing, half);
    assert (0 - half) * spacing == 0 - half * spacing;
  }

  lemma ModOfMod(y: int, m: nat, k: nat)
    requires m > 0 && k > 0
    ensures m * k > 0 && (y % (m * k)) % m == y % m
  {
    MulMono(1, m, k);
    var q := y / (m * k);
    assert y == (m * k) * q + y % (m * k);
    assert (m * k) * q == m * (k * q);
    ModShift(y % (m * k), m, k * q);
  }

  /** The index is the compressed tick plus a fixed offset. */
  lemma FromTickIs(tick: TickIndex, spacing: Spacing)
    ensures FromTick(tick, spacing) == FloorDiv(tick, spacing) + Half(spacing)
    ensures 0 <= FromTick(tick, spacing) < 2 * Half(spacing) <= Pow2(21)
  {
    hide *;
    var bits := IndexBits(spacing);
    var y := FloorDiv(tick, spacing);
    CompressedRange(tick, spacing);
    PowersOfIndex(spacing);
    MaxBitsIs();
    Pow2Monotone(bits, 21);
    FromTickDef(tick, spacing);
    LowBits(y, bits, Half(spacing), Pow2(32 - bits));
    HalfIs(spacing);
    XorTopBit(if y < 0 then y + Pow2(bits) else y, bits - 1);
  }

  lemma MaxBitsIs()
    ensures MAX_BITS == 21
  {
  }

  lemma FromTickDef(tick: TickIndex, spacing: Spacing)
    ensures var x: nat := FloorDiv(tick, spacing) % Pow2(32);
            FromTick(tick, spacing) == Xor(And(x, Shr(Pow2(32) - 1, 32 - IndexBits(spacing))), SignBit(spacing))
  {
    hide FloorDiv, Pow2, And, Xor, Shr, SignBit, IndexBits;
  }

  /** The low bits of a signed number in two's complement. */
  lemma LowBits(y: int, bits: nat, half: nat, k: nat)
    requires 0 - half <= y < half && Pow2(bits) == 2 * half && k > 0 && Pow2(32) == Pow2(bits) * k
    ensures y % Pow2(32) >= 0
    ensures And(y % Pow2(32), Pow2(bits) - 1) == if y < 0 then y + Pow2(bits) else y
  {
    hide *;
    ModOfMod(y, Pow2(bits), k);
    var x: nat := y % Pow2(32);
    AndLowMask(x, bits);
    ModIs(x, Pow2(bits));
    if y < 0 {
      DivModUniqueInt(y, Pow2(bits), -1, y + Pow2(bits));
    } else {
      DivModUniqueInt(y, Pow2(bits), 0, y);
    }
  }

  lemma ModIs(a: nat, b: nat)
    requires b > 0
    ensures Mod(a, b) == a % b
  {
  }

  /** Every index of the range decodes to the tick at its place. */
  lemma ToTickIs(index: nat, spacing: Spacing)
    requires index < 2 * Half(spacing)
    ensures ToTick(index, spacing) == (index - Half(spacing)) * spacing
  {
    hide *;
    var bits := IndexBits(spacing);
    ToTickDef(index, spacing);
    MaxBitsIs();
    PowersOfIndex(spacing);
    var half, k := Half(spacing), Pow2(32 - bits);
    HalfIs(spacing);
    XorTopBit(index, bits - 1);
    var raw := Xor(index, SignBit(spacing));
    Extend(raw, half, k);
    ShiftsAreProducts(raw, 32 - bits, 32);
  }

  lemma ToTickDef(index: nat, spacing: Spacing)
    ensures var shifted := Shl(Xor(index, SignBit(spacing)), 32 - IndexBits(spacing), 32);
            var signed := if shifted >= Pow2(31) then shifted - Pow2(32) else shifted;
            ToTick(index, spacing) == FloorDiv(signed, Pow2(32 - IndexBits(spacing))) * spacing
  {
    hide FloorDiv, Pow2, Xor, Shl, SignBit, IndexBits;
  }

  lemma Extend(raw: nat, half: nat, k: nat)
    requires raw < 2 * half && k > 0
    ensures (2 * half) * k > 0
    ensures var shifted := Mod(raw * k, (2 * half) * k);
            var signed := if shifted >= half * k then shifted - (2 * half) * k else shifted;
            FloorDiv(signed, k) == if raw < half then raw else raw - 2 * half
  {
    MulMono(1, 2 * half, k);
    MulStrict(raw, 2 * half, k);
    DivMod(raw * k, (2 * half) * k);
    if raw < half {
      MulStrict(raw, half, k);
      DivModUniqueInt(raw * k, k, raw, 0);
    } else {
      MulMono(half, raw, k);
      assert (raw - 2 * half) * k == raw * k - (2 * half) * k;
      DivModUniqueInt((raw - 2 * half) * k, k, raw - 2 * half, 0);
    }
  }

  /** `to_tick` inverts `from_tick` on aligned ticks, and floors any other tick to its spacing. */
  lemma IndexRoundTrip(tick: TickIndex, spacing: Spacing)
    ensures ToTick(FromTick(tick, spacing), spacing) == FloorDiv(tick, spacing) * spacing
    ensures Aligned(tick, spacing) ==> ToTick(FromTick(tick, spacing), spacing) == tick
  {
    hide FromTick, ToTick, Half, FloorDiv, Aligned, Pow2;
    FromTickIs(tick, spacing);
    ToTickIs(FromTick(tick, spacing), spacing);
    assert FromTick(tick, spacing) - Half(spacing) == FloorDiv(tick, spacing);
    AlignedIs(tick, spacing);
  }

  /** The other inverse: an index decodes to an aligned tick that encodes to it. */
  lemma TickRoundTrip(index: nat, spacing: Spacing)
    requires index < 2 * Half(spacing) && MIN_TICK <= ToTick(index, spacing) <= MAX_TICK
    ensures Aligned(ToTick(index, spacing), spacing)
    ensures FromTick(ToTick(index, spacing), spacing) == index
  {
    hide FromTick, ToTick, Half, FloorDiv, Aligned, Pow2;
    var t := ToTick(index, spacing);
    ToTickIs(index, spacing);
    FromTickIs(t, spacing);
    MultipleIsAligned(index - Half(spacing), spacing);
  }

  lemma AlignedIs(tick: int, spacing: Spacing)
    ensures Aligned(tick, spacing) <==> FloorDiv(tick, spacing) * spacing == tick
  {
  }

  lemma MultipleIsAligned(q: int, spacing: Spacing)
    ensures Aligned(q * spacing, spacing) && FloorDiv(q * spacing, spacing) == q
  {
    DivModUniqueInt(q * spacing, spacing, q, 0);
  }

  /** Indexes are ordered as their ticks; against an aligned tick the order is exact. */
  lemma IndexOrder(a: TickIndex, b: TickIndex, spacing: Spacing)
    ensures a <= b ==> FromTick(a, spacing) <= FromTick(b, spacing)
    ensures Aligned(a, spacing) ==> (a <= b <==> FromTick(a, spacing) <= FromTick(b, spacing))
  {
    hide FromTick, Half, FloorDiv, Aligned, Pow2;
    AlignedIs(a, spacing);
    FromTickIs(a, spacing);
    FromTickIs(b, spacing);
    if a <= b {
      FloorDivMonotone(a, b, spacing);
    }
    FloorDivAtLeast(b, spacing, FloorDiv(a, spacing));
  }

  /** Half the index range is a whole number of pages. */
  lemma HalfRange(spacing: Spacing)
    ensures Half(spacing) % 32 == 0
    ensures 2 * Half(spacing) <= 2097152
    ensures spacing != 1 ==> 2 * Half(spacing) <= 1048576
  {
    hide *;
    HalfIs(spacing);
    SpacingBitsRange(spacing);
    SmallPowers();
    var n := 20 - SpacingBits(spacing);
    Pow2Monotone(n, 20);
    Pow2Add(5, n - 5);
    DivModUniqueInt(Pow2(n), 32, Pow2(n - 5), 0);
    if spacing != 1 {
      BitLenBounds(spacing);
      Pow2Step(0);
      Pow2Monotone(n, 19);
      Pow2Step(19);
    }
  }

  /** The index range is the least power of two that covers 2^20 compressed ticks on either side of zero. */
  lemma HalfSpan(spacing: Spacing)
    ensures Pow2(20) <= Half(spacing) * spacing < Pow2(21)
    ensures exists n: nat :: n <= 20 && Half(spacing) == Pow2(n)
  {
    hide *;
    HalfIs(spacing);
    SpacingBitsRange(spacing);
    BitLenBounds(spacing);
    var e := SpacingBits(spacing);
    Pow2Add(20 - e, e);
    Pow2Add(20 - e, e + 1);
    MulMono(Pow2(e), spacing, Pow2(20 - e));
    MulStrict(spacing, Pow2(e + 1), Pow2(20 - e));
  }

  /** The capacity ends with the page of the greatest tick, and it is below the sentinel key. */
  lemma CacheCapBounds(spacing: Spacing)
    ensures 1 <= CacheCap(spacing) <= MAX_CACHE_CAP < 65535
    ensures 32 * (CacheCap(spacing) - 1) <= FloorDiv(MAX_TICK, spacing) + Half(spacing) < 32 * CacheCap(spacing)
    ensures 32 * CacheCap(spacing) <= 2 * Half(spacing)
  {
    hide FromTick, CacheIndex, Half, Pow2, CacheCap, FloorDiv;
    CapIs(spacing);
    FromTickIs(MAX_TICK, spacing);
    PartsAre(FromTick(MAX_TICK, spacing));
    HalfRange(spacing);
    LastPage(FromTick(MAX_TICK, spacing), Half(spacing));
    if spacing == 1 {
      DivModUniqueInt(MAX_TICK, 1, MAX_TICK, 0);
      CompressedByOne();
    }
  }

  lemma CapIs(spacing: Spacing)
    ensures CacheCap(spacing) == CacheIndex(FromTick(MAX_TICK, spacing)) + 1
    ensures MAX_CACHE_CAP == 60496 && MAX_TICK == 887272
  {
    hide FromTick, CacheIndex;
  }

  lemma CompressedByOne()
    ensures FloorDiv(MAX_TICK, 1) == 887272
  {
  }

  lemma LastPage(index: nat, half: nat)
    requires index < 2 * half && half % 32 == 0
    ensures 32 * (index / 32 + 1) <= 2 * half
    ensures half <= 524288 ==> index / 32 + 1 <= 32768
    ensures index <= 1935848 ==> index / 32 + 1 <= 60496
  {
  }

  lemma PageInCache(tick: TickIndex, spacing: Spacing)
    ensures CacheIndex(FromTick(tick, spacing)) < CacheCap(spacing)
  {
    hide FromTick, CacheIndex;
    IndexOrder(tick, MAX_TICK, spacing);
    FromTickIs(tick, spacing);
    FromTickIs(MAX_TICK, spacing);
    PartsAre(FromTick(tick, spacing));
    PartsAre(FromTick(MAX_TICK, spacing));
  }
}
