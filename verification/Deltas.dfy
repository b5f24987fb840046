/** The limb-wise 128-bit conversions of src/core/types/delta.rs. */
module Deltas {
  import opened Arith
  import opened Bits
  import opened Words
  import opened Wrappers
  import opened SmallRatio
  import opened PoolTypes
  import opened PoolSpec

  /** The 128-bit word of the two low limbs. */
  function LowWord(lo: nat, hi: nat): nat {
    Or(Shl(hi, 64, 128), lo)
  }

  /** Negation in 128 bits. */
  function WrappingNeg(x: int): int {
    if x == 0 - W127 then x else 0 - x
  }

  /** `u256_to_i128_positive`. */
  function ToPositive(lo: nat, hi: nat, upper0: nat, upper1: nat): Result<int> {
    if Or(upper0, upper1) != 0 || Shr(hi, 63) != 0 then Err(AmountOverflow)
    else Ok(AsI128(LowWord(lo, hi)))
  }

  /** `u256_to_i128_negative`. */
  function ToNegative(lo: nat, hi: nat, upper0: nat, upper1: nat): Result<int> {
    if Or(upper0, upper1) != 0 || hi > Pow2(63) || (hi == Pow2(63) && lo != 0) then Err(AmountOverflow)
    else Ok(WrappingNeg(AsI128(LowWord(lo, hi))))
  }

  lemma {:induction false} OrZero(a: nat, b: nat)
    ensures Or(a, b) == 0 <==> a == 0 && b == 0
    decreases a + b
  {
    if a != 0 && b != 0 {
      OrZero(a / 2, b / 2);
    }
  }

  /** The parts of a 256-bit amount, and its size in terms of them. */
  lemma AmountParts(amount: U256, lo: nat, hi: nat, upper: nat)
    requires lo < W64 && hi < W64 && amount == lo + W64 * (hi + W64 * upper)
    ensures amount < W127 <==> upper == 0 && hi < Pow2(63)
    ensures amount <= W127 <==> upper == 0 && (hi < Pow2(63) || (hi == Pow2(63) && lo == 0))
    ensures upper == 0 ==> amount == hi * W64 + lo < W128
  {
    hide Pow2;
    Widths();
    Pow2Add(63, 64);
    Pow2Add(64, 64);
    Pow2Step(63);
    Compare(amount, lo, hi, upper, W64, Pow2(63));
  }

  lemma Compare(amount: nat, lo: nat, hi: nat, upper: nat, w: nat, h: nat)
    requires w == 2 * h && h > 0 && lo < w && hi < w && amount == lo + w * (hi + w * upper)
    ensures amount < h * w <==> upper == 0 && hi < h
    ensures amount <= h * w <==> upper == 0 && (hi < h || (hi == h && lo == 0))
    ensures upper == 0 ==> amount == hi * w + lo < w * w
  {
    var rest := hi + w * upper;
    if upper > 0 {
      MulMono(1, upper, w);
      MulStrict(h, rest, w);
    } else {
      MulMono(hi + 1, w, w);
      if hi < h {
        MulMono(hi + 1, h, w);
        assert (hi + 1) * w == hi * w + w;
      } else {
        MulMono(h, hi, w);
        if hi > h {
          MulStrict(h, hi, w);
        }
      }
    }
  }

  lemma LowWordIs(lo: nat, hi: nat)
    requires lo < W64 && hi < W64
    ensures LowWord(lo, hi) == hi * W64 + lo
  {
    hide *;
    LowWordDef(lo, hi);
    Widths();
    Pow2Add(64, 64);
    ShiftsAreProducts(hi, 64, 128);
    MulNonNegative(hi, W64);
    MulStrict(hi, W64, W64);
    DivMod(hi * Pow2(64), Pow2(128));
    OrDisjoint(hi, lo, 64);
  }

  lemma LowWordDef(lo: nat, hi: nat)
    ensures LowWord(lo, hi) == Or(Shl(hi, 64, 128), lo)
  {
  }

  /**
    The limb tests accept exactly the amounts an i128 can hold with the given
    sign, 2^127 included on the negative side, and return that amount.
  */
  lemma ConversionsExact(amount: U256)
    ensures var lo := LowLimb(amount);
            var u1 := HighLimbs(amount);
            var (hi, u2) := (LowLimb(u1), HighLimbs(u1));
            && ToPositive(lo, hi, LowLimb(u2), HighLimbs(u2)) == SignedAmount(amount, false)
            && ToNegative(lo, hi, LowLimb(u2), HighLimbs(u2)) == SignedAmount(amount, true)
  {
    hide LowLimb, HighLimbs, LowWord, Or, Shr, Pow2;
    var lo := LowLimb(amount);
    var u1 := HighLimbs(amount);
    var (hi, u2) := (LowLimb(u1), HighLimbs(u1));
    LimbSplit(amount);
    LimbSplit(u1);
    LimbSplit(u2);
    OrZero(LowLimb(u2), HighLimbs(u2));
    NoLimbs(LowLimb(u2), HighLimbs(u2), u2);
    AmountParts(amount, lo, hi, u2);
    LowWordIs(lo, hi);
    TopBitOf(hi);
    TwiceW127();
  }

  lemma NoLimbs(low: nat, high: nat, x: nat)
    requires x == low + W64 * high && low < W64
    ensures x == 0 <==> low == 0 && high == 0
  {
    hide Pow2;
    if high > 0 {
      MulMono(1, high, W64);
    }
  }

  lemma TopBitOf(hi: nat)
    ensures Shr(hi, 63) == 0 <==> hi < Pow2(63)
  {
    hide Pow2, Div;
    ShiftsAreProducts(hi, 63, 64);
    FloorAtLeast(hi, Pow2(63), 1);
    DivMod(hi, Pow2(63));
  }
}
