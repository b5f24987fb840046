/**
  Machine words as natural numbers.

  A word of width n is a number below Pow2(n). The bitwise operators of the
  source are defined bit by bit, so every mask and shift is written as in the
  source and its arithmetic meaning is proved here once.
*/
module Bits {
  import opened Arith

  function Pow2(n: nat): (p: nat)
    ensures p > 0
  {
    if n == 0 then 1 else 2 * Pow2(n - 1)
  }

  /** Whether bit i of w is set. */
  predicate Bit(w: nat, i: nat) {
    if i == 0 then w % 2 == 1 else Bit(w / 2, i - 1)
  }

  function And(a: nat, b: nat): nat {
    if a == 0 || b == 0 then 0
    else 2 * And(a / 2, b / 2) + (if a % 2 == 1 && b % 2 == 1 then 1 else 0)
  }

  function Or(a: nat, b: nat): nat
    decreases a + b
  {
    if a == 0 then b else if b == 0 then a
    else 2 * Or(a / 2, b / 2) + (if a % 2 == 1 || b % 2 == 1 then 1 else 0)
  }

  function Xor(a: nat, b: nat): nat
    decreases a + b
  {
    if a == 0 then b else if b == 0 then a
    else 2 * Xor(a / 2, b / 2) + (if a % 2 != b % 2 then 1 else 0)
  }

  /** Complement inside a word of n bits. */
  function Not(w: nat, n: nat): nat
    requires w < Pow2(n)
  {
    Pow2(n) - 1 - w
  }

  /** Left shift inside a word of n bits: the bits shifted out are lost. */
  function Shl(w: nat, k: nat, n: nat): nat {
    Mod(w * Pow2(k), Pow2(n))
  }

  function Shr(w: nat, k: nat): nat {
    Div(w, Pow2(k))
  }

  /** Number of zero bits below the lowest set bit. */
  function TrailingZeros(w: nat): nat
    requires w > 0
  {
    if w % 2 == 1 then 0 else 1 + TrailingZeros(w / 2)
  }

  /** Number of significant bits; the highest set bit is BitLen(w) - 1. */
  function BitLen(w: nat): nat {
    if w == 0 then 0 else 1 + BitLen(w / 2)
  }

  function LeadingZeros(w: nat, n: nat): int {
    n - BitLen(w)
  }

  function CountOnes(w: nat): nat {
    if w == 0 then 0 else CountOnes(w / 2) + w % 2
  }

  /** Whether x is a non-zero power of two, tested as in the source. */
  predicate IsPowerOfTwo(x: nat) {
    x != 0 && And(x, x - 1) == 0
  }

  lemma ShiftsAreProducts(w: nat, k: nat, n: nat)
    ensures Shr(w, k) == Div(w, Pow2(k))
    ensures Shl(w, k, n) == Mod(w * Pow2(k), Pow2(n))
  {
  }

  // ---------------------------------------------------------------- powers

  lemma Pow2Step(n: nat)
    ensures Pow2(n + 1) == 2 * Pow2(n)
  {
  }

  lemma {:induction false} Pow2Add(a: nat, b: nat)
    ensures Pow2(a + b) == Pow2(a) * Pow2(b)
  {
    if a != 0 {
      Pow2Add(a - 1, b);
      assert Pow2(a + b) == 2 * Pow2(a - 1 + b);
      assert 2 * (Pow2(a - 1) * Pow2(b)) == (2 * Pow2(a - 1)) * Pow2(b);
    }
  }

  lemma {:induction false} Pow2Monotone(a: nat, b: nat)
    requires a <= b
    ensures Pow2(a) <= Pow2(b)
  {
    if a < b {
      Pow2Monotone(a, b - 1);
    }
  }

  lemma {:induction false} Pow2StrictlyMonotone(a: nat, b: nat)
    requires a < b
    ensures Pow2(a) < Pow2(b)
  {
    Pow2Monotone(a, b - 1);
  }

  // ------------------------------------------------------- bits of one word

  lemma {:induction false} BitOfZero(i: nat)
    ensures !Bit(0, i)
  {
    if i != 0 {
      BitOfZero(i - 1);
    }
  }

  lemma {:induction false} BitsAbove(w: nat, n: nat, i: nat)
    requires w < Pow2(n) && n <= i
    ensures !Bit(w, i)
  {
    if n == 0 {
      BitOfZero(i);
    } else {
      BitsAbove(w / 2, n - 1, i - 1);
    }
  }

  lemma {:induction false} SomeBit(w: nat) returns (i: nat)
    requires w != 0
    ensures Bit(w, i)
  {
    if w % 2 == 1 {
      i := 0;
    } else {
      i := SomeBit(w / 2);
      i := i + 1;
    }
  }

  lemma {:induction false} BitExtensionality(a: nat, b: nat)
    requires forall i: nat :: Bit(a, i) <==> Bit(b, i)
    ensures a == b
    decreases a + b
  {
    if a == 0 && b != 0 {
      var i := SomeBit(b);
      BitOfZero(i);
    } else if b == 0 && a != 0 {
      var i := SomeBit(a);
      BitOfZero(i);
    } else if a != 0 {
      assert Bit(a, 0) <==> Bit(b, 0);
      forall i: nat
        ensures Bit(a / 2, i) <==> Bit(b / 2, i)
      {
        assert Bit(a, i + 1) <==> Bit(b, i + 1);
      }
      BitExtensionality(a / 2, b / 2);
    }
  }

  lemma {:induction false} WordFromBits(w: nat, n: nat)
    requires forall i: nat :: n <= i ==> !Bit(w, i)
    ensures w < Pow2(n)
  {
    if n == 0 {
      if w != 0 {
        var i := SomeBit(w);
      }
    } else {
      forall i: nat | n - 1 <= i
        ensures !Bit(w / 2, i)
      {
        assert !Bit(w, i + 1);
      }
      WordFromBits(w / 2, n - 1);
    }
  }

  lemma {:induction false} BitPow2(i: nat, j: nat)
    ensures Bit(Pow2(i), j) <==> i == j
  {
    if i == 0 {
      if j > 0 {
        BitOfZero(j - 1);
      }
    } else if j > 0 {
      BitPow2(i - 1, j - 1);
    }
  }

  lemma {:induction false} BitAllOnes(n: nat, i: nat)
    ensures Bit(Pow2(n) - 1, i) <==> i < n
  {
    if n == 0 {
      BitOfZero(i);
    } else if i > 0 {
      assert (Pow2(n) - 1) / 2 == Pow2(n - 1) - 1;
      BitAllOnes(n - 1, i - 1);
    }
  }

  // -------------------------------------------------- bits of the operators

  lemma {:induction false} BitAnd(a: nat, b: nat, i: nat)
    ensures Bit(And(a, b), i) <==> Bit(a, i) && Bit(b, i)
  {
    if a == 0 || b == 0 {
      BitOfZero(i);
    } else if i > 0 {
      assert And(a, b) / 2 == And(a / 2, b / 2);
      BitAnd(a / 2, b / 2, i - 1);
    }
  }

  lemma {:induction false} BitOr(a: nat, b: nat, i: nat)
    ensures Bit(Or(a, b), i) <==> Bit(a, i) || Bit(b, i)
  {
    if a == 0 || b == 0 {
      BitOfZero(i);
    } else if i > 0 {
      assert Or(a, b) / 2 == Or(a / 2, b / 2);
      BitOr(a / 2, b / 2, i - 1);
    }
  }

  lemma {:induction false} BitNot(w: nat, n: nat, i: nat)
    requires w < Pow2(n)
    ensures Bit(Not(w, n), i) <==> i < n && !Bit(w, i)
  {
    if n == 0 {
      BitOfZero(i);
    } else if i > 0 {
      HalveNot(w, n);
      BitNot(w / 2, n - 1, i - 1);
    } else {
      HalveNot(w, n);
    }
  }

  lemma HalveNot(w: nat, n: nat)
    requires w < Pow2(n) && n > 0
    ensures w / 2 < Pow2(n - 1) && Not(w, n) / 2 == Not(w / 2, n - 1) && Not(w, n) % 2 == 1 - w % 2
  {
  }

  lemma {:induction false} BitScaled(w: nat, k: nat, i: nat)
    ensures Bit(w * Pow2(k), i) <==> k <= i && Bit(w, i - k)
  {
    if k == 0 {
    } else {
      assert w * Pow2(k) == 2 * (w * Pow2(k - 1));
      if i > 0 {
        BitScaled(w, k - 1, i - 1);
      }
    }
  }

  lemma {:induction false} BitTruncated(w: nat, n: nat, i: nat)
    ensures Bit(Mod(w, Pow2(n)), i) <==> i < n && Bit(w, i)
  {
    if n == 0 {
      DivModByOne(w);
      BitOfZero(i);
    } else {
      HalveRemainder(w, Pow2(n - 1));
      var t := Mod(w, Pow2(n));
      assert t % 2 == w % 2 && t / 2 == Mod(w / 2, Pow2(n - 1));
      if i > 0 {
        BitTruncated(w / 2, n - 1, i - 1);
      }
    }
  }

  lemma HalveRemainder(w: nat, m: nat)
    requires m > 0
    ensures Mod(w, 2 * m) == 2 * Mod(w / 2, m) + w % 2
    ensures Div(w, 2 * m) == Div(w / 2, m)
  {
    hide *;
    var h := w / 2;
    var q, r := Div(h, m), Mod(h, m);
    DivMod(h, m);
    assert (2 * m) * q == 2 * (m * q);
    DivModUnique(w, 2 * m, q, 2 * r + w % 2);
  }

  lemma BitShl(w: nat, k: nat, n: nat, i: nat)
    ensures Bit(Shl(w, k, n), i) <==> k <= i < n && Bit(w, i - k)
  {
    BitTruncated(w * Pow2(k), n, i);
    BitScaled(w, k, i);
  }

  lemma {:induction false} BitShr(w: nat, k: nat, i: nat)
    ensures Bit(Shr(w, k), i) <==> Bit(w, i + k)
  {
    if k == 0 {
      DivModByOne(w);
    } else {
      HalveRemainder(w, Pow2(k - 1));
      BitShr(w / 2, k - 1, i);
    }
  }

  // ------------------------------------------------- arithmetic of the masks

  /** Masking with n ones keeps the remainder modulo 2^n. */
  lemma AndLowMask(w: nat, n: nat)
    ensures And(w, Pow2(n) - 1) == Mod(w, Pow2(n))
  {
    forall i: nat
      ensures Bit(And(w, Pow2(n) - 1), i) <==> Bit(Mod(w, Pow2(n)), i)
    {
      BitAnd(w, Pow2(n) - 1, i);
      BitAllOnes(n, i);
      BitTruncated(w, n, i);
    }
    BitExtensionality(And(w, Pow2(n) - 1), Mod(w, Pow2(n)));
  }

  /** Words without a common bit: their bitwise or is their sum. */
  lemma {:induction false} OrDisjoint(high: nat, low: nat, n: nat)
    requires low < Pow2(n)
    ensures Or(high * Pow2(n), low) == high * Pow2(n) + low
    ensures Or(low, high * Pow2(n)) == high * Pow2(n) + low
  {
    if n == 0 || low == 0 || high == 0 {
    } else {
      assert high * Pow2(n) == 2 * (high * Pow2(n - 1));
      OrDisjoint(high, low / 2, n - 1);
    }
  }

  /** Flipping the top bit of an n-bit word adds or subtracts half the range. */
  lemma {:induction false} XorTopBit(w: nat, n: nat)
    requires w < 2 * Pow2(n)
    ensures Xor(w, Pow2(n)) == if w < Pow2(n) then w + Pow2(n) else w - Pow2(n)
  {
    if n == 0 || w == 0 {
    } else {
      XorTopBit(w / 2, n - 1);
    }
  }

  lemma {:induction false} AndDecrement(x: nat)
    requires x > 0
    ensures And(x, x - 1) == x - Pow2(TrailingZeros(x))
  {
    if x % 2 == 1 {
      AndSelf(x / 2);
    } else {
      AndDecrement(x / 2);
      assert (x - 1) / 2 == x / 2 - 1;
    }
  }

  lemma {:induction false} AndSelf(x: nat)
    ensures And(x, x) == x
  {
    if x > 0 {
      AndSelf(x / 2);
    }
  }

  /** A number is a power of two iff the source's test says so. */
  lemma PowerOfTwoTest(x: nat)
    requires x > 0
    ensures IsPowerOfTwo(x) <==> x == Pow2(TrailingZeros(x))
  {
    AndDecrement(x);
  }

  /** `x & -x` in an n-bit word isolates the lowest set bit. */
  lemma {:induction false} AndNegation(x: nat, n: nat)
    requires 0 < x < Pow2(n)
    ensures And(x, Pow2(n) - x) == Pow2(TrailingZeros(x))
  {
    if x % 2 == 1 {
      if x > 1 {
        AndComplement(x / 2, n - 1);
      }
      assert (Pow2(n) - x) / 2 == Pow2(n - 1) - 1 - x / 2;
    } else {
      AndNegation(x / 2, n - 1);
      assert (Pow2(n) - x) / 2 == Pow2(n - 1) - x / 2;
    }
  }

  lemma {:induction false} AndComplement(x: nat, n: nat)
    requires x < Pow2(n)
    ensures And(x, Pow2(n) - 1 - x) == 0
  {
    if n > 0 {
      AndComplement(x / 2, n - 1);
      assert (Pow2(n) - 1 - x) / 2 == Pow2(n - 1) - 1 - x / 2;
    }
  }

  lemma {:induction false} OddPart(x: nat)
    requires x > 0
    ensures Shr(x, TrailingZeros(x)) % 2 == 1
    ensures x == Pow2(TrailingZeros(x)) * Shr(x, TrailingZeros(x))
  {
    if x % 2 == 1 {
      DivModByOne(x);
    } else {
      OddPart(x / 2);
      HalveRemainder(x, Pow2(TrailingZeros(x / 2)));
    }
  }

  // ------------------------------------------------------ extreme set bits

  lemma {:induction false} TrailingZerosIsLowest(w: nat)
    requires w > 0
    ensures Bit(w, TrailingZeros(w))
    ensures forall i: nat :: i < TrailingZeros(w) ==> !Bit(w, i)
  {
    if w % 2 == 0 {
      TrailingZerosIsLowest(w / 2);
      forall i: nat | i < TrailingZeros(w)
        ensures !Bit(w, i)
      {
        if i > 0 {
          assert !Bit(w / 2, i - 1);
        }
      }
    }
  }

  lemma {:induction false} BitLenIsHighest(w: nat)
    requires w > 0
    ensures BitLen(w) > 0 && Bit(w, BitLen(w) - 1)
    ensures forall i: nat :: BitLen(w) <= i ==> !Bit(w, i)
  {
    BitLenBounds(w);
    forall i: nat | BitLen(w) <= i
      ensures !Bit(w, i)
    {
      BitsAbove(w, BitLen(w), i);
    }
    if w > 1 {
      BitLenIsHighest(w / 2);
    }
  }

  lemma {:induction false} BitLenBounds(w: nat)
    ensures w < Pow2(BitLen(w))
    ensures w > 0 ==> BitLen(w) > 0 && Pow2(BitLen(w) - 1) <= w
  {
    if w > 0 {
      BitLenBounds(w / 2);
    }
  }

  lemma BitLenAtMost(w: nat, n: nat)
    ensures BitLen(w) <= n <==> w < Pow2(n)
  {
    BitLenBounds(w);
    if BitLen(w) <= n {
      Pow2Monotone(BitLen(w), n);
    } else {
      Pow2Monotone(n, BitLen(w) - 1);
    }
  }

  lemma {:induction false} CountOnesZero(w: nat)
    ensures CountOnes(w) == 0 <==> w == 0
  {
    if w > 0 {
      CountOnesZero(w / 2);
    }
  }
}
