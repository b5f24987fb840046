/** A machine word of n bits as a set of bit positions: insertion, removal, and the nearest member under a mask. */
module WordSets {
  import opened Arith
  import opened Bits

  /** `1 << bit` in a word of n bits. */
  function OneBit(bit: nat, n: nat): nat {
    Shl(1, bit, n)
  }

  /** Index of the most significant set bit, from the count of leading zeros. */
  function HighestSetBit(w: nat, n: nat): int {
    n - 1 - LeadingZeros(w, n)
  }

  lemma OneBitIs(bit: nat, n: nat)
    requires bit < n
    ensures OneBit(bit, n) == Pow2(bit) < Pow2(n)
  {
    hide Pow2, Mod;
    Pow2StrictlyMonotone(bit, n);
    ShiftsAreProducts(1, bit, n);
    DivMod(Pow2(bit), Pow2(n));
  }

  lemma BitOfOneBit(bit: nat, n: nat, i: nat)
    requires bit < n
    ensures Bit(OneBit(bit, n), i) <==> i == bit
  {
    OneBitIs(bit, n);
    BitPow2(bit, i);
  }

  /** `MAX << lo` keeps the positions from lo up. */
  lemma ShiftedOnes(lo: nat, n: nat, i: nat)
    ensures Bit(Shl(Pow2(n) - 1, lo, n), i) <==> lo <= i < n
  {
    hide Bit, Shl;
    BitShl(Pow2(n) - 1, lo, n, i);
    if lo <= i {
      BitAllOnes(n, i - lo);
    }
  }

  /** `(1 << bit) - 1` keeps the positions below bit. */
  lemma OnesBelow(bit: nat, n: nat, i: nat)
    requires bit < n
    ensures OneBit(bit, n) >= 1
    ensures Bit(OneBit(bit, n) - 1, i) <==> i < bit
  {
    OneBitIs(bit, n);
    BitAllOnes(bit, i);
  }

  lemma WordWith(w: nat, bit: nat, n: nat)
    requires w < Pow2(n) && bit < n
    ensures 0 < Or(w, OneBit(bit, n)) < Pow2(n)
    ensures forall i: nat :: Bit(Or(w, OneBit(bit, n)), i) <==> Bit(w, i) || i == bit
  {
    hide Bit, Or, OneBit;
    var w' := Or(w, OneBit(bit, n));
    forall i: nat
      ensures Bit(w', i) <==> Bit(w, i) || i == bit
      ensures n <= i ==> !Bit(w', i)
    {
      BitOr(w, OneBit(bit, n), i);
      BitOfOneBit(bit, n, i);
      if n <= i {
        BitsAbove(w, n, i);
      }
    }
    WordFromBits(w', n);
    BitOfZero(bit);
  }

  lemma WordWithout(w: nat, bit: nat, n: nat)
    requires w < Pow2(n) && bit < n
    ensures OneBit(bit, n) < Pow2(n)
    ensures And(w, Not(OneBit(bit, n), n)) < Pow2(n)
    ensures forall i: nat :: Bit(And(w, Not(OneBit(bit, n), n)), i) <==> Bit(w, i) && i != bit
  {
    hide Bit, And, OneBit, Not;
    OneBitIs(bit, n);
    var w' := And(w, Not(OneBit(bit, n), n));
    forall i: nat
      ensures Bit(w', i) <==> Bit(w, i) && i != bit
      ensures n <= i ==> !Bit(w', i)
    {
      BitAnd(w, Not(OneBit(bit, n), n), i);
      BitNot(OneBit(bit, n), n, i);
      BitOfOneBit(bit, n, i);
      if n <= i {
        BitsAbove(w, n, i);
      }
    }
    WordFromBits(w', n);
  }

  lemma TestWord(w: nat, bit: nat, n: nat)
    requires bit < n
    ensures And(w, OneBit(bit, n)) != 0 <==> Bit(w, bit)
  {
    hide Bit, And, OneBit;
    var c := And(w, OneBit(bit, n));
    BitAnd(w, OneBit(bit, n), bit);
    BitOfOneBit(bit, n, bit);
    BitOfZero(bit);
    if c != 0 {
      var i := SomeBit(c);
      BitAnd(w, OneBit(bit, n), i);
      BitOfOneBit(bit, n, i);
    }
  }

  /** The lowest candidate when the mask keeps the positions from lo up. */
  lemma LowestIn(w: nat, mask: nat, lo: nat, n: nat)
    requires w < Pow2(n) && forall i: nat :: Bit(mask, i) <==> lo <= i < n
    ensures var c := And(w, mask);
            if c == 0 then forall i: nat :: lo <= i ==> !Bit(w, i)
            else var t := TrailingZeros(c);
                 lo <= t < n && Bit(w, t) && forall i: nat :: lo <= i < t ==> !Bit(w, i)
  {
    hide Bit, And, TrailingZeros;
    var c := And(w, mask);
    if c != 0 {
      TrailingZerosIsLowest(c);
      BitAnd(w, mask, TrailingZeros(c));
    }
    forall i: nat | lo <= i && (c == 0 || i < TrailingZeros(c))
      ensures !Bit(w, i)
    {
      BitAnd(w, mask, i);
      BitOfZero(i);
      if n <= i {
        BitsAbove(w, n, i);
      }
    }
  }

  /** The highest candidate when the mask keeps the positions below end. */
  lemma HighestIn(w: nat, mask: nat, end: nat, n: nat)
    requires w < Pow2(n) && end <= n && forall i: nat :: Bit(mask, i) <==> i < end
    ensures var c := And(w, mask);
            if c == 0 then forall i: nat :: i < end ==> !Bit(w, i)
            else var t := HighestSetBit(c, n);
                 0 <= t < end && Bit(w, t) && forall i: nat :: t < i < end ==> !Bit(w, i)
  {
    hide Bit, And, BitLen;
    var c := And(w, mask);
    if c != 0 {
      BitLenIsHighest(c);
      BitAnd(w, mask, BitLen(c) - 1);
    }
    forall i: nat | i < end && (c == 0 || HighestSetBit(c, n) < i)
      ensures !Bit(w, i)
    {
      BitAnd(w, mask, i);
      BitOfZero(i);
    }
  }

  /** First and last set bit of a non-zero word. */
  lemma EndBits(w: nat, n: nat)
    requires 0 < w < Pow2(n)
    ensures TrailingZeros(w) < n && Bit(w, TrailingZeros(w))
    ensures forall i: nat :: i < TrailingZeros(w) ==> !Bit(w, i)
    ensures 0 <= HighestSetBit(w, n) < n && Bit(w, HighestSetBit(w, n))
    ensures forall i: nat :: HighestSetBit(w, n) < i ==> !Bit(w, i)
  {
    hide Bit, TrailingZeros, BitLen;
    TrailingZerosIsLowest(w);
    BitLenIsHighest(w);
    BitLenAtMost(w, n);
    forall i: nat | n <= i
      ensures !Bit(w, i)
    {
      BitsAbove(w, n, i);
    }
  }
}
