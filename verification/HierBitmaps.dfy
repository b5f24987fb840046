/**
  The three-level bitmap of src/core/concentrated/ticks/bitmap.rs, proved to be
  a finite set of keys with nearest-member queries.
*/
module HierBitmaps {
  import opened Arith
  import opened Bits
  import opened WordSets
  import opened Wrappers

  type U16 = k: nat | k < 65536

  /** A word of 64 bits, every bit set. */
  const ALL_ONES: nat := Pow2(64) - 1

  // ------------------------------------------------------------------ masks

  function BitsFrom(bit: nat): nat {
    Shl(ALL_ONES, bit, 64)
  }

  function BitsAfter(bit: nat): nat {
    if bit == 63 then 0 else Shl(ALL_ONES, bit + 1, 64)
  }

  function BitsThrough(bit: nat): nat
    requires bit < 64
  {
    Shr(ALL_ONES, 63 - bit)
  }

  function BitsBefore(bit: nat): nat
    requires bit < 64
  {
    if bit == 0 then 0
    else
      OneBitIs(bit, 64);
      OneBit(bit, 64) - 1
  }

  /** Which bits each mask keeps. */
  lemma MaskBits(bit: nat, i: nat)
    requires bit < 64
    ensures Bit(BitsFrom(bit), i) <==> bit <= i < 64
    ensures Bit(BitsAfter(bit), i) <==> bit < i < 64
    ensures Bit(BitsThrough(bit), i) <==> i <= bit
    ensures Bit(BitsBefore(bit), i) <==> i < bit
  {
    hide Pow2, Bit, Shl, Shr, OneBit;
    ShiftedOnes(bit, 64, i);
    ShiftedOnes(bit + 1, 64, i);
    BitShr(ALL_ONES, 63 - bit, i);
    BitAllOnes(64, i + (63 - bit));
    BitOfZero(i);
    OnesBelow(bit, 64, i);
  }

  // ------------------------------------------------------ sequences of words

  ghost predicate Bounded(words: seq<nat>) {
    forall i :: 0 <= i < |words| ==> words[i] < Pow2(64)
  }

  /** Bit k of a sequence of 64-bit words. */
  predicate Has(words: seq<nat>, k: int) {
    0 <= k < 64 * |words| && Bit(words[k / 64], k % 64)
  }

  /** Bit j of the upper layer is set iff word j of the lower layer is not zero. */
  ghost predicate Summary(lower: seq<nat>, upper: seq<nat>) {
    && |lower| <= 64 * |upper|
    && forall j :: Has(upper, j) <==> 0 <= j < |lower| && lower[j] != 0
  }

  /** Position of a bit inside a word, and back. */
  lemma Position(word: nat, bit: nat)
    requires bit < 64
    ensures (64 * word + bit) / 64 == word && (64 * word + bit) % 64 == bit
  {
  }

  /** A zero word has no bits. */
  lemma ZeroWord(words: seq<nat>, word: nat)
    requires word < |words| && words[word] == 0
    ensures forall k :: 64 * word <= k < 64 * word + 64 ==> !Has(words, k)
  {
    forall k | 64 * word <= k < 64 * word + 64
      ensures !Has(words, k)
    {
      BitOfZero(k % 64);
    }
  }

  /** The bits of one word, as positions of the sequence. */
  lemma WordPositions(words: seq<nat>, word: nat)
    requires word < |words|
    ensures forall k :: 64 * word <= k < 64 * word + 64 ==> (Has(words, k) <==> Bit(words[word], k - 64 * word))
  {
    hide Bit;
    forall k | 64 * word <= k < 64 * word + 64
      ensures Has(words, k) <==> Bit(words[word], k - 64 * word)
    {
      Position(word, k - 64 * word);
    }
  }

  /** First and last bit of a non-zero word. */
  lemma EndsOfWord(words: seq<nat>, word: nat)
    requires Bounded(words) && word < |words| && words[word] != 0
    ensures var t := TrailingZeros(words[word]);
            && 0 <= t < 64
            && Has(words, 64 * word + t)
            && forall k :: 64 * word <= k < 64 * word + t ==> !Has(words, k)
    ensures var t := HighestSetBit(words[word], 64);
            && 0 <= t < 64
            && Has(words, 64 * word + t)
            && forall k :: 64 * word + t < k < 64 * word + 64 ==> !Has(words, k)
  {
    hide Bit, HighestSetBit, TrailingZeros, Has;
    EndBits(words[word], 64);
    WordPositions(words, word);
  }

  /** No set bit of the upper layer in a range: no set bit of the lower layer in the words it stands for. */
  lemma SkippedWords(lower: seq<nat>, upper: seq<nat>, from: int, to: int)
    requires Summary(lower, upper) && 0 <= from
    requires forall j :: from <= j < to ==> !Has(upper, j)
    ensures forall k :: 64 * from <= k < 64 * to ==> !Has(lower, k)
  {
    forall k | 64 * from <= k < 64 * to
      ensures !Has(lower, k)
    {
      var j := k / 64;
      assert !Has(upper, j);
      if j < |lower| {
        assert lower[j] == 0;
        BitOfZero(k % 64);
      }
    }
  }

  // ------------------------------------------------------- setting, clearing

  function SetBit(words: seq<nat>, word: nat, bit: nat): seq<nat>
    requires word < |words|
  {
    words[word := Or(words[word], OneBit(bit, 64))]
  }

  function ClearBit(words: seq<nat>, word: nat, bit: nat): seq<nat>
    requires word < |words| && bit < 64
  {
    OneBitIs(bit, 64);
    words[word := And(words[word], Not(OneBit(bit, 64), 64))]
  }

  lemma SetBitEffect(words: seq<nat>, word: nat, bit: nat)
    requires Bounded(words) && word < |words| && bit < 64
    ensures Bounded(SetBit(words, word, bit)) && SetBit(words, word, bit)[word] != 0
    ensures forall k :: Has(SetBit(words, word, bit), k) <==> Has(words, k) || k == 64 * word + bit
  {
    hide Bit, Or, OneBit;
    WordWith(words[word], bit, 64);
    Position(word, bit);
  }

  lemma ClearBitEffect(words: seq<nat>, word: nat, bit: nat)
    requires Bounded(words) && word < |words| && bit < 64
    ensures Bounded(ClearBit(words, word, bit))
    ensures forall k :: Has(ClearBit(words, word, bit), k) <==> Has(words, k) && k != 64 * word + bit
  {
    hide Bit, And, OneBit, Not;
    WordWithout(words[word], bit, 64);
    Position(word, bit);
  }

  /** A word is zero iff no bit of it is set. */
  lemma WordNotZero(words: seq<nat>, word: nat, k: int)
    requires word < |words| && 64 * word <= k < 64 * word + 64 && Has(words, k)
    ensures words[word] != 0
  {
    if words[word] == 0 {
      ZeroWord(words, word);
    }
  }

  /** The upper layer after a word of the lower layer became non-zero. */
  lemma SummaryAfterSet(lower: seq<nat>, upper: seq<nat>, lower': seq<nat>, word: nat)
    requires Summary(lower, upper) && Bounded(upper) && word < |lower| == |lower'|
    requires lower'[word] != 0 && forall i :: 0 <= i < |lower| && i != word ==> lower'[i] == lower[i]
    ensures word / 64 < |upper|
    ensures if lower[word] != 0 then Summary(lower', upper) else Summary(lower', SetBit(upper, word / 64, word % 64))
  {
    hide Has, SetBit;
    SetBitEffect(upper, word / 64, word % 64);
    SetBitElsewhere(upper, word / 64, word % 64);
  }

  /** The upper layer after a word of the lower layer lost a bit. */
  lemma SummaryAfterClear(lower: seq<nat>, upper: seq<nat>, lower': seq<nat>, word: nat)
    requires Summary(lower, upper) && Bounded(upper) && word < |lower| == |lower'|
    requires lower[word] != 0 && forall i :: 0 <= i < |lower| && i != word ==> lower'[i] == lower[i]
    ensures word / 64 < |upper|
    ensures if lower'[word] != 0 then Summary(lower', upper) else Summary(lower', ClearBit(upper, word / 64, word % 64))
  {
    hide Has, ClearBit;
    ClearBitEffect(upper, word / 64, word % 64);
    SetBitElsewhere(upper, word / 64, word % 64);
  }

  // ------------------------------------------------------ nearest members

  /** r is the least member at or above lo. */
  ghost predicate IsFirstFrom(s: set<int>, lo: int, r: Option<nat>) {
    match r
    case None => forall x :: x in s ==> x < lo
    case Some(k) => k in s && lo <= k && forall x :: x in s && lo <= x ==> k <= x
  }

  /** r is the greatest member at or below hi. */
  ghost predicate IsLastUpTo(s: set<int>, hi: int, r: Option<nat>) {
    match r
    case None => forall x :: x in s ==> hi < x
    case Some(k) => k in s && k <= hi && forall x :: x in s && x <= hi ==> x <= k
  }

  function WordIndex(key: nat): nat {
    Shr(key, 6)
  }

  function BitIndex(key: nat): nat {
    And(key, 63)
  }

  /** `make_key` before its bounds check. */
  function JoinKey(word: nat, bit: nat): nat {
    Or(Shl(word, 6, 64), bit)
  }

  lemma KeyParts(key: nat)
    ensures WordIndex(key) == key / 64 && BitIndex(key) == key % 64 < 64
  {
    SixtyFour();
    AndLowMask(key, 6);
    ShiftsAreProducts(key, 6, 64);
  }

  lemma SixtyFour()
    ensures Pow2(6) == 64
  {
    assert Pow2(2) == 4;
    assert Pow2(4) == 16;
  }

  lemma JoinedKey(word: nat, bit: nat)
    requires word <= 1024 && bit < 64
    ensures JoinKey(word, bit) == 64 * word + bit
  {
    hide Pow2, And, Or, Shl;
    SixtyFour();
    Pow2Add(6, 6);
    Pow2Add(12, 6);
    Pow2Monotone(18, 64);
    ShiftsAreProducts(word, 6, 64);
    DivMod(word * Pow2(6), Pow2(64));
    OrDisjoint(word, bit, 6);
  }

  // ------------------------------------------------------- three layers

  /** Three consistent layers over keys below cap. */
  ghost predicate Layers(cap: nat, l0: seq<nat>, l1: seq<nat>, l2: seq<nat>) {
    && cap <= 65535
    && |l0| == (cap + 63) / 64 && |l1| == (|l0| + 63) / 64 && |l2| == 1
    && Bounded(l0) && Bounded(l1) && Bounded(l2)
    && Summary(l0, l1) && Summary(l1, l2)
    && (forall k :: Has(l0, k) ==> k < cap)
  }

  ghost function KeysOf(cap: nat, l0: seq<nat>): set<int> {
    set k | 0 <= k < cap && Has(l0, k)
  }

  lemma LayersParts(cap: nat, l0: seq<nat>, l1: seq<nat>, l2: seq<nat>)
    requires Layers(cap, l0, l1, l2)
    ensures |l0| <= 1024 && |l1| <= 16 && |l2| == 1
    ensures forall k: nat :: k < cap ==> k / 64 < |l0| && k / 64 / 64 < |l1|
    ensures forall k :: Has(l0, k) <==> k in KeysOf(cap, l0)
  {
    hide Bounded, Summary;
    forall k: nat | k < cap
      ensures k / 64 < |l0| && k / 64 / 64 < |l1|
    {
    }
    forall k
      ensures Has(l0, k) <==> k in KeysOf(cap, l0)
    {
    }
  }

  /** Setting a missing key: which layers change, and that they stay consistent. */
  lemma AfterSet(cap: nat, l0: seq<nat>, l1: seq<nat>, l2: seq<nat>, key: nat)
    requires Layers(cap, l0, l1, l2) && key < cap
    ensures var (w0, w1) := (key / 64, key / 64 / 64);
            && w0 < |l0| && w1 < |l1| && w1 < 64 && |l2| == 1
            && var (l0', l1', l2') := (SetBit(l0, w0, key % 64), SetBit(l1, w1, w0 % 64), SetBit(l2, 0, w1));
            && KeysOf(cap, l0') == KeysOf(cap, l0) + {key}
            && Layers(cap, l0', if l0[w0] != 0 then l1 else l1', if l0[w0] != 0 || l1[w1] != 0 then l2 else l2')
  {
    hide Has, SetBit, ClearBit, Bounded, Summary;
    LayersParts(cap, l0, l1, l2);
    var w0, w1 := key / 64, key / 64 / 64;
    var l0', l1', l2' := SetBit(l0, w0, key % 64), SetBit(l1, w1, w0 % 64), SetBit(l2, 0, w1);
    SetBitEffect(l0, w0, key % 64);
    SetBitElsewhere(l0, w0, key % 64);
    SummaryAfterSet(l0, l1, l0', w0);
    assert forall k :: Has(l0', k) ==> k < cap;
    if l0[w0] == 0 {
      SetBitEffect(l1, w1, w0 % 64);
      SetBitElsewhere(l1, w1, w0 % 64);
      TopWord(w1);
      SetBitElsewhere(l2, 0, w1);
      SummaryAfterSet(l1, l2, l1', w1);
      SetBitEffect(l2, 0, w1);
    }
  }

  lemma SetBitElsewhere(words: seq<nat>, word: nat, bit: nat)
    requires word < |words| && bit < 64
    ensures |SetBit(words, word, bit)| == |words| == |ClearBit(words, word, bit)|
    ensures forall i :: 0 <= i < |words| && i != word ==>
              SetBit(words, word, bit)[i] == words[i] && ClearBit(words, word, bit)[i] == words[i]
  {
  }

  /** Clearing a present key. */
  lemma AfterClear(cap: nat, l0: seq<nat>, l1: seq<nat>, l2: seq<nat>, key: nat)
    requires Layers(cap, l0, l1, l2) && key in KeysOf(cap, l0)
    ensures var (w0, w1) := (key / 64, key / 64 / 64);
            && w0 < |l0| && w1 < |l1| && w1 < 64 && |l2| == 1
            && var (l0', l1', l2') := (ClearBit(l0, w0, key % 64), ClearBit(l1, w1, w0 % 64), ClearBit(l2, 0, w1));
            && |l0'| == |l0| && |l1'| == |l1|
            && KeysOf(cap, l0') == KeysOf(cap, l0) - {key}
            && Layers(cap, l0', if l0'[w0] != 0 then l1 else l1', if l0'[w0] != 0 || l1'[w1] != 0 then l2 else l2')
  {
    hide Has, SetBit, ClearBit, Bounded, Summary;
    LayersParts(cap, l0, l1, l2);
    var w0, w1 := key / 64, key / 64 / 64;
    var l0', l1', l2' := ClearBit(l0, w0, key % 64), ClearBit(l1, w1, w0 % 64), ClearBit(l2, 0, w1);
    WordNotZero(l0, w0, key);
    ClearBitEffect(l0, w0, key % 64);
    SetBitElsewhere(l0, w0, key % 64);
    SetBitElsewhere(l1, w1, w0 % 64);
    SetBitElsewhere(l2, 0, w1);
    SummaryAfterClear(l0, l1, l0', w0);
    assert forall k :: Has(l0', k) ==> k < cap;
    if l0'[w0] == 0 {
      SummaryBit(l0, l1, w0);
      WordNotZero(l1, w1, w0);
      ClearBitEffect(l1, w1, w0 % 64);
      TopWord(w1);
      SummaryAfterClear(l1, l2, l1', w1);
      ClearBitEffect(l2, 0, w1);
    }
  }

  // ------------------------------------------------------------- searching

  /** Candidates of the three levels of a forward search from start. */
  function LeafAbove(l0: seq<nat>, start: nat): nat
    requires start / 64 < |l0|
  {
    And(l0[start / 64], BitsFrom(start % 64))
  }

  function MidAbove(l1: seq<nat>, start: nat): nat
    requires start / 64 / 64 < |l1|
  {
    And(l1[start / 64 / 64], BitsAfter(start / 64 % 64))
  }

  function TopAbove(l2: seq<nat>, start: nat): nat
    requires |l2| == 1
  {
    And(l2[0], BitsAfter(start / 64 / 64))
  }

  lemma LeafAboveIs(l0: seq<nat>, start: nat)
    requires Bounded(l0) && start / 64 < |l0|
    ensures var c := LeafAbove(l0, start);
            if c == 0 then forall k :: start <= k < 64 * (start / 64 + 1) ==> !Has(l0, k)
            else var k := 64 * (start / 64) + TrailingZeros(c);
                 && k < 64 * (start / 64 + 1) && start <= k && Has(l0, k)
                 && forall x :: start <= x < k ==> !Has(l0, x)
  {
    hide Bit, And, BitsFrom, TrailingZeros, Has;
    forall i: nat
      ensures Bit(BitsFrom(start % 64), i) <==> start % 64 <= i < 64
    {
      MaskBits(start % 64, i);
    }
    LowestIn(l0[start / 64], BitsFrom(start % 64), start % 64, 64);
    WordPositions(l0, start / 64);
  }

  lemma AboveIs(words: seq<nat>, word: nat, bit: nat)
    requires Bounded(words) && word < |words| && bit < 64
    ensures var c := And(words[word], BitsAfter(bit));
            if c == 0 then forall k :: 64 * word + bit + 1 <= k < 64 * (word + 1) ==> !Has(words, k)
            else var t := TrailingZeros(c);
                 && bit < t < 64 && Has(words, 64 * word + t)
                 && forall k :: 64 * word + bit + 1 <= k < 64 * word + t ==> !Has(words, k)
  {
    hide Bit, And, BitsAfter, TrailingZeros, Has;
    forall i: nat
      ensures Bit(BitsAfter(bit), i) <==> bit + 1 <= i < 64
    {
      MaskBits(bit, i);
    }
    LowestIn(words[word], BitsAfter(bit), bit + 1, 64);
    WordPositions(words, word);
  }

  /** The first key of a non-zero leaf word, when nothing lies between start and that word. */
  lemma FirstOfWord(cap: nat, l0: seq<nat>, l1: seq<nat>, l2: seq<nat>, start: nat, word: nat)
    requires Layers(cap, l0, l1, l2) && start / 64 < |l0|
    requires LeafAbove(l0, start) == 0 && start / 64 < word < |l0| && l0[word] != 0
    requires forall j :: start / 64 + 1 <= j < word ==> !Has(l1, j)
    ensures var k := 64 * word + TrailingZeros(l0[word]);
            TrailingZeros(l0[word]) < 64 && k < cap && IsFirstFrom(KeysOf(cap, l0), start, Some(k))
  {
    hide Has, LeafAbove, TrailingZeros, HighestSetBit, Bounded, Summary;
    LayersParts(cap, l0, l1, l2);
    LeafAboveIs(l0, start);
    SkippedWords(l0, l1, start / 64 + 1, word);
    EndsOfWord(l0, word);
    var k := 64 * word + TrailingZeros(l0[word]);
    forall x | x in KeysOf(cap, l0) && start <= x
      ensures k <= x
    {
      assert Has(l0, x);
    }
  }

  lemma NextInLeaf(cap: nat, l0: seq<nat>, l1: seq<nat>, l2: seq<nat>, start: nat)
    requires Layers(cap, l0, l1, l2) && start < cap && start / 64 < |l0| && LeafAbove(l0, start) != 0
    ensures var k := 64 * (start / 64) + TrailingZeros(LeafAbove(l0, start));
            TrailingZeros(LeafAbove(l0, start)) < 64 && k < cap && IsFirstFrom(KeysOf(cap, l0), start, Some(k))
  {
    hide Has, LeafAbove, TrailingZeros, Bounded, Summary;
    LayersParts(cap, l0, l1, l2);
    LeafAboveIs(l0, start);
    var k := 64 * (start / 64) + TrailingZeros(LeafAbove(l0, start));
    forall x | x in KeysOf(cap, l0) && start <= x
      ensures k <= x
    {
      assert Has(l0, x);
    }
  }

  lemma NextInMid(cap: nat, l0: seq<nat>, l1: seq<nat>, l2: seq<nat>, start: nat)
    requires Layers(cap, l0, l1, l2) && start < cap
    requires start / 64 < |l0| && start / 64 / 64 < |l1|
    requires LeafAbove(l0, start) == 0 && MidAbove(l1, start) != 0
    ensures var t := TrailingZeros(MidAbove(l1, start));
            var word := 64 * (start / 64 / 64) + t;
            && t < 64 && word < |l0| && l0[word] != 0 && TrailingZeros(l0[word]) < 64
            && var k := 64 * word + TrailingZeros(l0[word]);
            k < cap && IsFirstFrom(KeysOf(cap, l0), start, Some(k))
  {
    hide Has, LeafAbove, TrailingZeros, Bounded, Summary, And, BitsAfter, IsFirstFrom, KeysOf;
    AboveIs(l1, start / 64 / 64, start / 64 % 64);
    var word := 64 * (start / 64 / 64) + TrailingZeros(MidAbove(l1, start));
    SummaryBit(l0, l1, word);
    FirstOfWord(cap, l0, l1, l2, start, word);
  }

  lemma NextInTop(cap: nat, l0: seq<nat>, l1: seq<nat>, l2: seq<nat>, start: nat)
    requires Layers(cap, l0, l1, l2) && start < cap
    requires start / 64 < |l0| && start / 64 / 64 < |l1|
    requires LeafAbove(l0, start) == 0 && MidAbove(l1, start) == 0
    ensures var c := TopAbove(l2, start);
            if c == 0 then IsFirstFrom(KeysOf(cap, l0), start, None)
            else
              var top := TrailingZeros(c);
              && top < |l1| && l1[top] != 0 && TrailingZeros(l1[top]) < 64
              && var word := 64 * top + TrailingZeros(l1[top]);
              && word < |l0| && l0[word] != 0 && TrailingZeros(l0[word]) < 64
              && var k := 64 * word + TrailingZeros(l0[word]);
              k < cap && IsFirstFrom(KeysOf(cap, l0), start, Some(k))
  {
    hide Has, LeafAbove, TrailingZeros, HighestSetBit, Bounded, Summary, And, BitsAfter, KeysOf;
    LayersParts(cap, l0, l1, l2);
    var w0, w1 := start / 64, start / 64 / 64;
    AboveIs(l1, w1, w0 % 64);
    AboveIs(l2, 0, w1);
    var c := TopAbove(l2, start);
    if c == 0 {
      SkippedWords(l1, l2, w1 + 1, 64);
      SkippedWords(l0, l1, w0 + 1, 4096);
      LeafAboveIs(l0, start);
      forall x | x in KeysOf(cap, l0)
        ensures x < start
      {
        assert Has(l0, x);
        BelowCap(cap, l0, x);
      }
    } else {
      var top := TrailingZeros(c);
      SummaryBit(l1, l2, top);
      EndsOfWord(l1, top);
      SkippedWords(l1, l2, w1 + 1, top);
      var word := 64 * top + TrailingZeros(l1[top]);
      SummaryBit(l0, l1, word);
      FirstOfWord(cap, l0, l1, l2, start, word);
    }
  }

  lemma BelowCap(cap: nat, l0: seq<nat>, x: int)
    requires x in KeysOf(cap, l0)
    ensures x < cap
  {
  }

  /** Candidates of the three levels of a backward search from start. */
  function LeafBelow(l0: seq<nat>, start: nat): nat
    requires start / 64 < |l0|
  {
    And(l0[start / 64], BitsThrough(start % 64))
  }

  function MidBelow(l1: seq<nat>, start: nat): nat
    requires start / 64 / 64 < |l1|
  {
    And(l1[start / 64 / 64], BitsBefore(start / 64 % 64))
  }

  function TopBelow(l2: seq<nat>, start: nat): nat
    requires |l2| == 1 && start / 64 / 64 < 64
  {
    And(l2[0], BitsBefore(start / 64 / 64))
  }

  lemma LeafBelowIs(l0: seq<nat>, start: nat)
    requires Bounded(l0) && start / 64 < |l0|
    ensures var c := LeafBelow(l0, start);
            if c == 0 then forall k :: 64 * (start / 64) <= k <= start ==> !Has(l0, k)
            else var k := 64 * (start / 64) + HighestSetBit(c, 64);
                 && 0 <= HighestSetBit(c, 64) < 64 && k <= start && Has(l0, k)
                 && forall x :: k < x <= start ==> !Has(l0, x)
  {
    hide Bit, And, BitsThrough, HighestSetBit, Has;
    forall i: nat
      ensures Bit(BitsThrough(start % 64), i) <==> i < start % 64 + 1
    {
      MaskBits(start % 64, i);
    }
    HighestIn(l0[start / 64], BitsThrough(start % 64), start % 64 + 1, 64);
    WordPositions(l0, start / 64);
  }

  lemma BelowIs(words: seq<nat>, word: nat, bit: nat)
    requires Bounded(words) && word < |words| && bit < 64
    ensures var c := And(words[word], BitsBefore(bit));
            if c == 0 then forall k :: 64 * word <= k < 64 * word + bit ==> !Has(words, k)
            else var t := HighestSetBit(c, 64);
                 && 0 <= t < bit && Has(words, 64 * word + t)
                 && forall k :: 64 * word + t + 1 <= k < 64 * word + bit ==> !Has(words, k)
  {
    hide Bit, And, BitsBefore, HighestSetBit, Has;
    forall i: nat
      ensures Bit(BitsBefore(bit), i) <==> i < bit
    {
      MaskBits(bit, i);
    }
    HighestIn(words[word], BitsBefore(bit), bit, 64);
    WordPositions(words, word);
  }

  lemma LastOfWord(cap: nat, l0: seq<nat>, l1: seq<nat>, l2: seq<nat>, start: nat, word: nat)
    requires Layers(cap, l0, l1, l2) && start / 64 < |l0|
    requires LeafBelow(l0, start) == 0 && word < start / 64 && l0[word] != 0
    requires forall j :: word + 1 <= j < start / 64 ==> !Has(l1, j)
    ensures var k := 64 * word + HighestSetBit(l0[word], 64);
            0 <= HighestSetBit(l0[word], 64) < 64 && k < cap && IsLastUpTo(KeysOf(cap, l0), start, Some(k))
  {
    hide Has, LeafBelow, TrailingZeros, HighestSetBit, Bounded, Summary;
    LayersParts(cap, l0, l1, l2);
    LeafBelowIs(l0, start);
    SkippedWords(l0, l1, word + 1, start / 64);
    EndsOfWord(l0, word);
    var k := 64 * word + HighestSetBit(l0[word], 64);
    forall x | x in KeysOf(cap, l0) && x <= start
      ensures x <= k
    {
      assert Has(l0, x);
    }
  }

  lemma PrevInLeaf(cap: nat, l0: seq<nat>, l1: seq<nat>, l2: seq<nat>, start: nat)
    requires Layers(cap, l0, l1, l2) && start < cap && start / 64 < |l0| && LeafBelow(l0, start) != 0
    ensures var k := 64 * (start / 64) + HighestSetBit(LeafBelow(l0, start), 64);
            && 0 <= HighestSetBit(LeafBelow(l0, start), 64) < 64
            && k < cap && IsLastUpTo(KeysOf(cap, l0), start, Some(k))
  {
    hide Has, LeafBelow, HighestSetBit, Bounded, Summary;
    LayersParts(cap, l0, l1, l2);
    LeafBelowIs(l0, start);
    var k := 64 * (start / 64) + HighestSetBit(LeafBelow(l0, start), 64);
    forall x | x in KeysOf(cap, l0) && x <= start
      ensures x <= k
    {
      assert Has(l0, x);
    }
  }

  lemma PrevInMid(cap: nat, l0: seq<nat>, l1: seq<nat>, l2: seq<nat>, start: nat)
    requires Layers(cap, l0, l1, l2) && start < cap
    requires start / 64 < |l0| && start / 64 / 64 < |l1|
    requires LeafBelow(l0, start) == 0 && MidBelow(l1, start) != 0
    ensures var t := HighestSetBit(MidBelow(l1, start), 64);
            var word := 64 * (start / 64 / 64) + t;
            && 0 <= t < 64 && word < |l0| && l0[word] != 0 && 0 <= HighestSetBit(l0[word], 64) < 64
            && var k := 64 * word + HighestSetBit(l0[word], 64);
            k < cap && IsLastUpTo(KeysOf(cap, l0), start, Some(k))
  {
    hide Has, LeafBelow, HighestSetBit, Bounded, Summary, And, BitsBefore, IsLastUpTo, KeysOf;
    BelowIs(l1, start / 64 / 64, start / 64 % 64);
    var word := 64 * (start / 64 / 64) + HighestSetBit(MidBelow(l1, start), 64);
    SummaryBit(l0, l1, word);
    LastOfWord(cap, l0, l1, l2, start, word);
  }

  lemma PrevInTop(cap: nat, l0: seq<nat>, l1: seq<nat>, l2: seq<nat>, start: nat)
    requires Layers(cap, l0, l1, l2) && start < cap
    requires start / 64 < |l0| && start / 64 / 64 < |l1| && start / 64 / 64 < 64
    requires LeafBelow(l0, start) == 0 && MidBelow(l1, start) == 0
    ensures var c := TopBelow(l2, start);
            if c == 0 then IsLastUpTo(KeysOf(cap, l0), start, None)
            else
              var top := HighestSetBit(c, 64);
              && 0 <= top < |l1| && l1[top] != 0 && 0 <= HighestSetBit(l1[top], 64) < 64
              && var word := 64 * top + HighestSetBit(l1[top], 64);
              && word < |l0| && l0[word] != 0 && 0 <= HighestSetBit(l0[word], 64) < 64
              && var k := 64 * word + HighestSetBit(l0[word], 64);
              k < cap && IsLastUpTo(KeysOf(cap, l0), start, Some(k))
  {
    hide Has, LeafBelow, TrailingZeros, HighestSetBit, Bounded, Summary, And, BitsBefore, KeysOf;
    LayersParts(cap, l0, l1, l2);
    var w0, w1 := start / 64, start / 64 / 64;
    BelowIs(l1, w1, w0 % 64);
    BelowIs(l2, 0, w1);
    var c := TopBelow(l2, start);
    if c == 0 {
      SkippedWords(l1, l2, 0, w1);
      SkippedWords(l0, l1, 0, w0);
      LeafBelowIs(l0, start);
      forall x | x in KeysOf(cap, l0)
        ensures start < x
      {
        assert Has(l0, x);
        NonNegativeKey(l0, x);
      }
    } else {
      var top := HighestSetBit(c, 64);
      SummaryBit(l1, l2, top);
      EndsOfWord(l1, top);
      SkippedWords(l1, l2, top + 1, w1);
      var word := 64 * top + HighestSetBit(l1[top], 64);
      SummaryBit(l0, l1, word);
      LastOfWord(cap, l0, l1, l2, start, word);
    }
  }

  lemma NonNegativeKey(words: seq<nat>, k: int)
    requires Has(words, k)
    ensures 0 <= k
  {
  }

  class HierBitmap {
    const cap: nat
    var layer2: nat
    const layer1: array<nat>
    const layer0: array<nat>

    ghost predicate Valid()
      reads this, layer0, layer1
    {
      && layer0 != layer1
      && Layers(cap, layer0[..], layer1[..], [layer2])
    }

    /** The keys present. */
    ghost function Keys(): set<int>
      reads layer0
    {
      KeysOf(cap, layer0[..])
    }

    constructor (cap: nat)
      requires cap <= 65535
      ensures Valid() && this.cap == cap && Keys() == {}
      ensures fresh(layer0) && fresh(layer1)
    {
      this.cap := cap;
      layer2 := 0;
      layer0 := new nat[(cap + 63) / 64](_ => 0);
      layer1 := new nat[((cap + 63) / 64 + 63) / 64](_ => 0);
      new;
      hide Bit;
      forall k
        ensures !Has(layer0[..], k) && !Has(layer1[..], k) && !Has([layer2], k)
      {
        if k >= 0 {
          BitOfZero(k % 64);
        }
      }
    }

    method Contains(key: U16) returns (r: bool)
      requires Valid()
      ensures r <==> key in Keys()
    {
      hide Has, And, Layers, OneBit;
      if key >= cap {
        return false;
      }
      KeyParts(key);
      LayersParts(cap, layer0[..], layer1[..], [layer2]);
      TestBit(layer0[..], key / 64, key % 64);
      r := And(layer0[WordIndex(key)], OneBit(BitIndex(key), 64)) != 0;
    }

    /** `set`: reports whether the bitmap changed. */
    method Set(key: U16) returns (changed: bool)
      requires Valid()
      modifies this, layer0, layer1
      ensures Valid()
      ensures changed == (key < cap && key !in old(Keys()))
      ensures Keys() == if key < cap then old(Keys()) + {key} else old(Keys())
    {
      hide Has, And, Or, Layers, OneBit, KeysOf, WordIndex, BitIndex;
      if key >= cap {
        BeyondCap(cap, layer0[..], key);
        return false;
      }
      ghost var l0, l1, l2 := layer0[..], layer1[..], [layer2];
      KeyParts(key);
      var w0, b0 := WordIndex(key), BitIndex(key);
      KeyParts(w0);
      var w1, b1 := WordIndex(w0), BitIndex(w0);
      LayersParts(cap, l0, l1, l2);
      TestBit(l0, w0, b0);
      AfterSet(cap, l0, l1, l2, key);
      var old0 := layer0[w0];
      if And(old0, OneBit(b0, 64)) != 0 {
        assert KeysOf(cap, l0) == KeysOf(cap, l0) + {key};
        return false;
      }
      layer0[w0] := Or(old0, OneBit(b0, 64));
      assert layer0[..] == SetBit(l0, w0, b0);
      if old0 != 0 {
        return true;
      }
      var old1 := layer1[w1];
      layer1[w1] := Or(old1, OneBit(b1, 64));
      assert layer1[..] == SetBit(l1, w1, b1);
      if old1 == 0 {
        layer2 := Or(layer2, OneBit(w1, 64));
        assert [layer2] == SetBit(l2, 0, w1);
      }
      return true;
    }

    /** `remove`: reports whether the bitmap changed. */
    method Remove(key: U16) returns (changed: bool)
      requires Valid()
      modifies this, layer0, layer1
      ensures Valid()
      ensures changed == (key in old(Keys()))
      ensures Keys() == old(Keys()) - {key}
    {
      hide Has, And, Or, Layers, OneBit, KeysOf, WordIndex, BitIndex, Not;
      if key >= cap {
        BeyondCap(cap, layer0[..], key);
        return false;
      }
      ghost var l0, l1, l2 := layer0[..], layer1[..], [layer2];
      KeyParts(key);
      var w0, b0 := WordIndex(key), BitIndex(key);
      KeyParts(w0);
      var w1, b1 := WordIndex(w0), BitIndex(w0);
      LayersParts(cap, l0, l1, l2);
      OneBitIs(b0, 64);
      OneBitIs(b1, 64);
      TestBit(l0, w0, b0);
      if And(layer0[w0], OneBit(b0, 64)) == 0 {
        assert KeysOf(cap, l0) == KeysOf(cap, l0) - {key};
        return false;
      }
      AfterClear(cap, l0, l1, l2, key);
      OneBitIs(w1, 64);
      layer0[w0] := And(layer0[w0], Not(OneBit(b0, 64), 64));
      assert layer0[..] == ClearBit(l0, w0, b0);
      if layer0[w0] != 0 {
        return true;
      }
      layer1[w1] := And(layer1[w1], Not(OneBit(b1, 64), 64));
      assert layer1[..] == ClearBit(l1, w1, b1);
      if layer1[w1] != 0 {
        return true;
      }
      layer2 := And(layer2, Not(OneBit(w1, 64), 64));
      assert [layer2] == ClearBit(l2, 0, w1);
      return true;
    }

    /** Strictly greater than `key`. */
    method Next(key: U16) returns (r: Option<nat>)
      requires Valid()
      ensures IsFirstFrom(Keys(), key + 1, r)
    {
      r := NextFrom(key + 1);
    }

    method NextOrEq(key: U16) returns (r: Option<nat>)
      requires Valid()
      ensures IsFirstFrom(Keys(), key, r)
    {
      r := NextFrom(key);
    }

    /** Strictly less than `key`. */
    method Prev(key: U16) returns (r: Option<nat>)
      requires Valid()
      ensures IsLastUpTo(Keys(), key - 1, r)
    {
      if key == 0 || cap == 0 {
        return None;
      }
      r := PrevFrom(Min(key - 1, cap - 1));
    }

    method PrevOrEq(key: U16) returns (r: Option<nat>)
      requires Valid()
      ensures IsLastUpTo(Keys(), key, r)
    {
      if cap == 0 {
        return None;
      }
      r := PrevFrom(Min(key, cap - 1));
    }

    /** Forward search from an inclusive start: leaf word, then mid-level word, then top level. */
    method NextFrom(start: nat) returns (r: Option<nat>)
      requires Valid()
      ensures IsFirstFrom(Keys(), start, r)
    {
      hide And, Layers, BitsFrom, BitsAfter, TrailingZeros, WordIndex, BitIndex, JoinKey;
      if start >= cap {
        return None;
      }
      hide Keys, KeysOf, IsFirstFrom;
      ghost var l0, l1, l2 := layer0[..], layer1[..], [layer2];
      LayersParts(cap, l0, l1, l2);
      KeyParts(start);
      var w0, b0 := WordIndex(start), BitIndex(start);
      var candidates := And(layer0[w0], BitsFrom(b0));
      if candidates != 0 {
        NextInLeaf(cap, l0, l1, l2, start);
        r := MakeKey(w0, TrailingZeros(candidates));
        return;
      }
      KeyParts(w0);
      var w1, b1 := WordIndex(w0), BitIndex(w0);
      candidates := And(layer1[w1], BitsAfter(b1));
      if candidates != 0 {
        NextInMid(cap, l0, l1, l2, start);
        JoinedKey(w1, TrailingZeros(candidates));
        var next0 := JoinKey(w1, TrailingZeros(candidates));
        r := MakeKey(next0, TrailingZeros(layer0[next0]));
        return;
      }
      NextInTop(cap, l0, l1, l2, start);
      candidates := And(layer2, BitsAfter(w1));
      if candidates == 0 {
        return None;
      }
      var next1 := TrailingZeros(candidates);
      JoinedKey(next1, TrailingZeros(layer1[next1]));
      var next0 := JoinKey(next1, TrailingZeros(layer1[next1]));
      r := MakeKey(next0, TrailingZeros(layer0[next0]));
    }

    /** Backward search from an inclusive start. */
    method PrevFrom(start: nat) returns (r: Option<nat>)
      requires Valid()
      ensures start < cap ==> IsLastUpTo(Keys(), start, r)
      ensures start >= cap ==> r == None
    {
      hide And, Layers, BitsThrough, BitsBefore, HighestSetBit, WordIndex, BitIndex, JoinKey, KeysOf, IsLastUpTo;
      if start >= cap {
        return None;
      }
      ghost var l0, l1, l2 := layer0[..], layer1[..], [layer2];
      LayersParts(cap, l0, l1, l2);
      KeyParts(start);
      var w0, b0 := WordIndex(start), BitIndex(start);
      var candidates := And(layer0[w0], BitsThrough(b0));
      if candidates != 0 {
        PrevInLeaf(cap, l0, l1, l2, start);
        r := MakeKey(w0, HighestSetBit(candidates, 64));
        return;
      }
      KeyParts(w0);
      var w1, b1 := WordIndex(w0), BitIndex(w0);
      candidates := And(layer1[w1], BitsBefore(b1));
      if candidates != 0 {
        PrevInMid(cap, l0, l1, l2, start);
        JoinedKey(w1, HighestSetBit(candidates, 64));
        var prev0 := JoinKey(w1, HighestSetBit(candidates, 64));
        r := MakeKey(prev0, HighestSetBit(layer0[prev0], 64));
        return;
      }
      PrevInTop(cap, l0, l1, l2, start);
      candidates := And(layer2, BitsBefore(w1));
      if candidates == 0 {
        return None;
      }
      var prev1 := HighestSetBit(candidates, 64);
      JoinedKey(prev1, HighestSetBit(layer1[prev1], 64));
      var prev0 := JoinKey(prev1, HighestSetBit(layer1[prev1], 64));
      r := MakeKey(prev0, HighestSetBit(layer0[prev0], 64));
    }

    /** `make_key`: hides padding bits in the last leaf word. */
    method MakeKey(word: nat, bit: nat) returns (r: Option<nat>)
      requires word <= 1024 && bit < 64
      ensures r == if 64 * word + bit < cap then Some(64 * word + bit) else None
    {
      JoinedKey(word, bit);
      var key := JoinKey(word, bit);
      r := if key < cap then Some(key) else None;
    }
  }

  /** Testing one bit with a mask. */
  lemma TestBit(words: seq<nat>, word: nat, bit: nat)
    requires word < |words| && bit < 64
    ensures And(words[word], OneBit(bit, 64)) != 0 <==> Has(words, 64 * word + bit)
  {
    hide Bit, And, OneBit;
    WordPositions(words, word);
    TestWord(words[word], bit, 64);
  }

  lemma SummaryBit(lower: seq<nat>, upper: seq<nat>, j: nat)
    requires Summary(lower, upper)
    ensures Has(upper, j) <==> j < |lower| && lower[j] != 0
  {
  }

  lemma TopWord(word: nat)
    ensures word < 64 ==> word / 64 == 0 && word % 64 == word
  {
  }

  lemma BeyondCap(cap: nat, l0: seq<nat>, key: int)
    requires key >= cap
    ensures key !in KeysOf(cap, l0)
    ensures KeysOf(cap, l0) - {key} == KeysOf(cap, l0)
  {
  }
}
