/**
  `FullMath`: a * b / d on 256-bit words without losing the 512-bit product.

  The methods follow src/core/math/full.rs step by step; FloorQuotient and
  CeilQuotient are what they compute.
*/
module FullMath {
  import opened Arith
  import opened Bits
  import opened Words
  import opened Wrappers

  /** floor(a*b/d) when it fits in 256 bits. */
  function FloorQuotient(a: nat, b: nat, d: nat): Result<nat> {
    if d == 0 then Err(ZeroDenominator)
    else if Div(a * b, d) >= W256 then Err(Overflow)
    else Ok(Div(a * b, d))
  }

  /** ceil(a*b/d) when it fits in 256 bits. */
  function CeilQuotient(a: nat, b: nat, d: nat): Result<nat> {
    if d == 0 then Err(ZeroDenominator)
    else if CeilDiv(a * b, d) >= W256 then Err(Overflow)
    else Ok(CeilDiv(a * b, d))
  }

  // ------------------------------------------------------ modular inverse

  /** Reducing modulo a multiple first changes nothing. */
  lemma ModOfMultiple(x: int, m: int, k: int, w: int)
    requires m > 0 && k > 0 && w == m * k
    ensures w > 0 && (x % w) % m == x % m
  {
    MulStrict(0, k, m);
    var q := x / w;
    assert w * q == m * (k * q);
    ModShift(x % w, m, k * q);
  }

  lemma XorTwo(x: nat)
    ensures Xor(x, 2) == if (x / 2) % 2 == 0 then x + 2 else x - 2
  {
    if x >= 2 {
      assert Xor(x, 2) == 2 * Xor(x / 2, 1) + x % 2;
      assert Xor(x / 2, 1) == 2 * Xor(x / 4, 0) + (if (x / 2) % 2 == 0 then 1 else 0);
    }
  }

  /** The seed 3d ^ 2 is an inverse of d modulo 16. */
  lemma SeedIsInverse(d: nat, x: nat)
    requires d % 2 == 1 && x % 16 == (3 * d) % 16
    ensures (d * Xor(x, 2)) % 16 == 1
  {
    hide *;
    var t := x % 16;
    TripleResidue(d);
    SeedTable(d % 16, t);
    XorTwo(x);
    XorTwoResidue(x, x / 16, t);
    ModProduct(d, Xor(x, 2), 16);
  }

  lemma TripleResidue(d: nat)
    ensures (3 * d) % 16 == (3 * (d % 16)) % 16 && d % 16 < 16
    ensures d % 2 == 1 ==> (d % 16) % 2 == 1
  {
    var c, e := d % 16, d / 16;
    assert d == 16 * e + c;
    ModShift(3 * c, 16, 3 * e);
    ModShift(c, 2, 8 * e);
  }

  lemma XorTwoResidue(x: nat, a: nat, t: nat)
    requires x == 16 * a + t && t < 16
    ensures (x / 2) % 2 == (t / 2) % 2
    ensures (x / 2) % 2 == 0 ==> (x + 2) % 16 == t + 2
    ensures (x / 2) % 2 == 1 ==> (x - 2) % 16 == t - 2
  {
    assert x / 2 == 8 * a + t / 2;
    ModShift(t / 2, 2, 4 * a);
    if (t / 2) % 2 == 0 {
      assert t + 2 < 16;
      DivModUniqueInt(x + 2, 16, a, t + 2);
    } else {
      DivModUniqueInt(x - 2, 16, a, t - 2);
    }
  }

  lemma SeedTable(c: nat, t: nat)
    requires c < 16 && c % 2 == 1 && t == (3 * c) % 16
    ensures (c * (if (t / 2) % 2 == 0 then t + 2 else t - 2)) % 16 == 1
  {
    assert c == 1 || c == 3 || c == 5 || c == 7 || c == 9 || c == 11 || c == 13 || c == 15;
  }

  /** One Newton step inside words modulo w. */
  function NewtonStep(d: nat, inv: nat, w: nat): nat
    requires w > 0
  {
    Mod(inv * ((2 - Mod(d * inv, w)) % w), w)
  }

  /** A Newton step squares the modulus for which `inv` is an inverse. */
  lemma NewtonSquares(d: nat, inv: nat, m: nat, k: nat, w: nat)
    requires m > 1 && k > 0 && (m * m) * k == w && w > 0
    requires Mod(d * inv, m) == 1
    ensures m * m > 0 && Mod(d * NewtonStep(d, inv, w), m * m) == 1
  {
    var p := d * inv;
    MulStrict2(0, m, 0, m);
    NewtonStepResidue(d, inv, w);
    ModOfMultiple(d * NewtonStep(d, inv, w), m * m, k, w);
    ModOfMultiple(p * (2 - p), m * m, k, w);
    NewtonResidue(p, m, p / m);
  }

  lemma NewtonStepResidue(d: nat, inv: nat, w: nat)
    requires w > 0
    ensures (d * NewtonStep(d, inv, w)) % w == ((d * inv) * (2 - d * inv)) % w
  {
    var p := d * inv;
    ModSubRight(2, p, w);
    ModMulRight(inv, 2 - p, w);
    ModMulRight(d, inv * (2 - p), w);
    assert d * (inv * (2 - p)) == p * (2 - p);
  }

  lemma NewtonResidue(p: int, m: int, e: int)
    requires m > 1 && p == 1 + m * e
    ensures m * m > 1 && (p * (2 - p)) % (m * m) == 1
  {
    NewtonIdentity(m, e);
    MulStrict2(1, m, 1, m);
    ModShift(1, m * m, -(e * e));
    DivModUniqueInt(1, m * m, 0, 1);
  }

  lemma NewtonIdentity(m: int, e: int)
    ensures (1 + m * e) * (2 - (1 + m * e)) == 1 + (m * m) * (-(e * e))
  {
    var t := m * e;
    assert (1 + t) * (2 - (1 + t)) == 1 - t * t;
    assert t * t == (m * m) * (e * e);
  }

  /** In bits: a Newton step doubles how many low bits of `inv` are right. */
  lemma NewtonDoubles(d: nat, inv: nat, bits: nat)
    requires 0 < bits && 2 * bits <= 256
    requires Mod(d * inv, Pow2(bits)) == 1
    ensures Mod(d * NewtonStep(d, inv, W256), Pow2(2 * bits)) == 1
  {
    hide *;
    Widths();
    Pow2AboveOne(bits);
    Pow2Add(bits, bits);
    Pow2Add(2 * bits, 256 - 2 * bits);
    NewtonSquares(d, inv, Pow2(bits), Pow2(256 - 2 * bits), W256);
  }

  lemma Pow2AboveOne(n: nat)
    requires n > 0
    ensures Pow2(n) > 1
  {
  }

  /** One refinement of the inverse; `bits` low bits are right before, twice as many after. */
  method Refine(d: U256, inv: U256, ghost bits: nat) returns (refined: U256)
    requires 0 < bits && 2 * bits <= 256
    requires Mod(d * inv, Pow2(bits)) == 1
    ensures Mod(d * refined, Pow2(2 * bits)) == 1
  {
    hide *;
    NewtonDoubles(d, inv, bits);
    NewtonStepFits(d, inv);
    refined := NewtonStep(d, inv, W256);
  }

  lemma NewtonStepFits(d: nat, inv: nat)
    ensures W256 > 0 && NewtonStep(d, inv, W256) < W256
  {
  }

  /** The inverse of an odd word modulo 2^256: a seed and six Newton steps. */
  method ModInv(d: U256) returns (inv: U256)
    requires d % 2 == 1
    ensures Mod(d * inv, W256) == 1
  {
    hide *;
    Widths();
    SeedOfWord(d);
    inv := Xor(Mod(3 * d, W256), 2);
    inv := Refine(d, inv, 4);
    inv := Refine(d, inv, 8);
    inv := Refine(d, inv, 16);
    inv := Refine(d, inv, 32);
    inv := Refine(d, inv, 64);
    inv := Refine(d, inv, 128);
  }

  lemma SeedOfWord(d: U256)
    requires d % 2 == 1
    ensures Mod(d * Xor(Mod(3 * d, W256), 2), Pow2(4)) == 1
    ensures Xor(Mod(3 * d, W256), 2) < W256
  {
    assert Pow2(4) == 16 by {
      assert Pow2(2) == 4;
    }
    Pow2Add(4, 252);
    ModOfMultiple(3 * d, 16, Pow2(252), W256);
    SeedIsInverse(d, Mod(3 * d, W256));
    XorTwoFits(Mod(3 * d, W256), W256, 4 * Pow2(252));
  }

  lemma XorTwoFits(x: nat, w: nat, k: nat)
    requires x < w && w == 4 * k
    ensures Xor(x, 2) < w
  {
    XorTwo(x);
  }

  // ---------------------------------------------------------- wide product

  /** Shifting a two-word product right: the low word of the shifted product. */
  function ShiftedLowWord(prod0: U256, prod1: U256, shift: nat): nat
    requires shift <= 256
  {
    if shift == 0 then prod0
    else Or(Shr(prod0, shift), Shl(prod1, 256 - shift, 256))
  }

  lemma ShiftedLowWordExact(prod0: U256, prod1: U256, shift: nat)
    requires shift <= 256
    ensures prod1 * W256 >= 0
    ensures ShiftedLowWord(prod0, prod1, shift)
         == Mod(Div(prod1 * W256 + prod0, Pow2(shift)), W256)
  {
    hide Shl, Shr, Or, Div, Mod;
    MulNonNegative(prod1, W256);
    if shift == 0 {
      assert Pow2(0) == 1;
      assert W256 * prod1 == prod1 * W256;
      DivModByOne(prod1 * W256 + prod0);
      DivModUnique(prod1 * W256 + prod0, W256, prod1, prod0);
    } else {
      ShiftedWordsJoined(prod0, prod1, shift);
    }
  }

  lemma ShiftedWordsJoined(prod0: U256, prod1: U256, shift: nat)
    requires 0 < shift <= 256
    ensures Or(Shr(prod0, shift), Shl(prod1, 256 - shift, 256))
         == Mod(Div(prod1 * W256 + prod0, Pow2(shift)), W256)
  {
    hide *;
    Widths();
    ShiftsAreProducts(prod0, shift, 256);
    Pow2Add(shift, 256 - shift);
    ShiftedHighWord(prod1, shift);
    HighPartBelow(prod0, Pow2(shift), Pow2(256 - shift), W256);
    OrDisjoint(Mod(prod1, Pow2(shift)), Shr(prod0, shift), 256 - shift);
    SplitAtShift(prod0, prod1, Pow2(shift), Pow2(256 - shift), W256);
  }

  /** The bits of the high word that a shift moves into the low word. */
  lemma ShiftedHighWord(prod1: U256, shift: nat)
    requires shift <= 256
    ensures Shl(prod1, 256 - shift, 256) == Mod(prod1, Pow2(shift)) * Pow2(256 - shift)
  {
    hide *;
    Widths();
    ShiftsAreProducts(prod1, 256 - shift, 256);
    Pow2Add(shift, 256 - shift);
    QuotientByMultiple(prod1, Pow2(shift), Pow2(256 - shift), W256);
  }

  lemma HighPartBelow(x: nat, s: nat, c: nat, w: nat)
    requires s > 0 && w == s * c && x < w
    ensures Div(x, s) < c
  {
    hide *;
    FloorAtLeast(x, s, c);
    assert c * s == w;
  }

  /** Shifting a two-word number (words modulo w = s*c) right by s, word by word. */
  lemma SplitAtShift(prod0: nat, prod1: nat, s: nat, c: nat, w: nat)
    requires s > 0 && c > 0 && w == s * c && 0 < w && Div(prod0, s) < c
    ensures Mod(Div(prod1 * w + prod0, s), w) == Mod(prod1, s) * c + Div(prod0, s)
  {
    hide *;
    var q, r, h := Div(prod1, s), Mod(prod1, s), Div(prod0, s);
    DivMod(prod1, s);
    MultipleIdentity(prod1, s, c, w, q, r);
    var x := prod1 * c;
    assert prod1 * (s * c) == s * x;
    DivShift(prod0, s, x);
    assert Div(prod1 * w + prod0, s) == h + x;
    MulMono(r + 1, s, c);
    assert (r + 1) * c == r * c + c;
    DivModUnique(x + h, w, q, r * c + h);
  }

  /** The quotient of a two-word product fits in one word iff its high word is below d. */
  lemma QuotientFits(prod0: nat, prod1: nat, d: nat, w: nat)
    requires d > 0 && prod0 < w
    ensures Div(prod1 * w + prod0, d) < w <==> prod1 < d
  {
    hide *;
    var x := prod1 * w + prod0;
    FloorAtLeast(x, d, w);
    if prod1 < d {
      MulMono(prod1 + 1, d, w);
      assert (prod1 + 1) * w == prod1 * w + w;
    } else {
      MulMono(d, prod1, w);
    }
  }

  lemma InverseIdentity(odd: int, inv: int, q: int, low: int, w: int, e: int, f: int)
    requires odd * inv == w * e + 1 && odd * q == w * f + low
    ensures low * inv == w * (q * e - f * inv) + q
  {
    assert low * inv == (odd * q) * inv - (w * f) * inv;
    assert (odd * q) * inv == (odd * inv) * q;
  }

  /** An exact multiple of an odd number is divided by multiplying with the inverse. */
  lemma DivideByInverse(odd: nat, inv: nat, q: nat, low: nat, w: nat)
    requires 1 < w && Mod(odd * inv, w) == 1 && q < w
    requires low == Mod(odd * q, w)
    ensures Mod(low * inv, w) == q
  {
    var e, f := odd * inv / w, odd * q / w;
    InverseIdentity(odd, inv, q, low, w, e, f);
    DivModUniqueInt(low * inv, w, q * e - f * inv, q);
  }

  /** A power of two divides the product by a shift and a mask. */
  lemma PowerOfTwoPath(prod0: U256, prod1: U256, d: U256)
    requires d > 0 && IsPowerOfTwo(d) && prod1 < d
    ensures TrailingZeros(d) < 256
    ensures ShiftedLowWord(prod0, prod1, TrailingZeros(d)) == Div(prod1 * W256 + prod0, d)
    ensures And(prod0, d - 1) == Mod(prod1 * W256 + prod0, d)
  {
    hide *;
    Widths();
    var shift := TrailingZeros(d);
    PowerOfTwoTest(d);
    ShiftIsBelowWidth(d);
    ShiftedLowWordExact(prod0, prod1, shift);
    QuotientFits(prod0, prod1, d, W256);
    var product := prod1 * W256 + prod0;
    DivMod(Div(product, d), W256);
    AndLowMask(prod0, shift);
    Pow2Add(shift, 256 - shift);
    LowBitsOfTwoWords(prod0, prod1, d, Pow2(256 - shift), W256);
  }

  lemma LowBitsOfTwoWords(prod0: nat, prod1: nat, d: nat, c: nat, w: nat)
    requires d > 0 && w == d * c
    ensures Mod(prod1 * w + prod0, d) == Mod(prod0, d)
  {
    assert prod1 * (d * c) == d * (prod1 * c);
    ModShift(prod0, d, prod1 * c);
  }

  lemma ShiftIsBelowWidth(d: U256)
    requires d > 0
    ensures TrailingZeros(d) < 256
  {
    hide *;
    Widths();
    TrailingZerosIsLowest(d);
    if TrailingZeros(d) >= 256 {
      BitsAbove(d, 256, TrailingZeros(d));
    }
  }

  lemma {:induction false} TrailingZerosOfPow2(k: nat)
    ensures TrailingZeros(Pow2(k)) == k
  {
    if k > 0 {
      TrailingZerosOfPow2(k - 1);
    }
  }

  /** The isolated lowest bit of d counts its trailing zeros. */
  lemma LowestBitShift(d: U256)
    requires d > 0
    ensures And(d, W256 - d) > 0
    ensures TrailingZeros(And(d, W256 - d)) == TrailingZeros(d) < 256
  {
    hide *;
    Widths();
    AndNegation(d, 256);
    TrailingZerosOfPow2(TrailingZeros(d));
    ShiftIsBelowWidth(d);
  }

  /** Dividing an exact product: drop the powers of two, multiply by the inverse of the rest. */
  lemma OddPartPath(d: U256, shift: nat, odd: nat, product: nat, q: nat, inv: nat, low: nat)
    requires d > 0 && shift == TrailingZeros(d) && odd == Shr(d, shift)
    requires product == d * q && q < W256
    requires Mod(odd * inv, W256) == 1
    requires low == Mod(Div(product, Pow2(shift)), W256)
    ensures Mod(low * inv, W256) == q
  {
    hide *;
    Widths();
    Pow2AboveOne(256);
    OddPart(d);
    ExactQuotient(d, Pow2(shift), odd, q);
    DivideByInverse(odd, inv, q, low, W256);
  }

  lemma ExactQuotient(d: nat, s: nat, odd: nat, q: nat)
    requires s > 0 && d == s * odd
    ensures Div(d * q, s) == odd * q
  {
    assert d * q == s * (odd * q);
    DivModUnique(d * q, s, odd * q, 0);
  }

  /** Taking r off a two-word product, with the borrow. */
  lemma SubtractRemainder(prod0: U256, prod1: nat, r: U256, rest: int)
    requires rest == prod1 * W256 + prod0 - r && rest >= 0
    ensures prod0 < r ==> prod1 > 0
    ensures (if prod0 < r then prod1 - 1 else prod1) * W256 + WrappingSub(prod0, r) == rest
  {
    if prod1 > 0 {
      assert (prod1 - 1) * W256 == prod1 * W256 - W256;
    }
  }

  /** Slow path of the multiply-divide: quotient and whether a remainder was dropped. */
  method MulDivCore(prod0: U256, prod1: U256, denominator: U256, product: nat)
    returns (r: Result<(U256, bool)>)
    requires denominator > 0
    requires product == prod1 * W256 + prod0
    ensures r.Ok? <==> Div(product, denominator) < W256
    ensures r.Ok? ==> r.value == (Div(product, denominator), Mod(product, denominator) != 0)
    ensures r.Err? ==> r.error == Overflow
  {
    QuotientFits(prod0, prod1, denominator, W256);
    if prod1 >= denominator {
      return Err(Overflow);
    }
    if IsPowerOfTwo(denominator) {
      PowerOfTwoPath(prod0, prod1, denominator);
      var shift := TrailingZeros(denominator);
      var quotient := ShiftedLowWord(prod0, prod1, shift);
      return Ok((quotient, And(prod0, denominator - 1) != 0));
    }
    DivMod(product, denominator);
    var remainder: U256 := Mod(product, denominator);
    SubtractRemainder(prod0, prod1, remainder, denominator * Div(product, denominator));
    var borrow := prod0 < remainder;
    var low0 := WrappingSub(prod0, remainder);
    var high: U256 := if borrow then prod1 - 1 else prod1;
    LowestBitShift(denominator);
    var shift := TrailingZeros(And(denominator, W256 - denominator));
    var quotient := DivideOutPowersOfTwo(low0, high, denominator, shift, Div(product, denominator));
    return Ok((quotient, remainder != 0));
  }

  lemma OddPartIsOdd(d: U256, shift: nat)
    requires d > 0 && shift == TrailingZeros(d)
    ensures Shr(d, shift) % 2 == 1 && Shr(d, shift) < W256
  {
    OddPart(d);
    ShrShrinks(d, shift);
  }

  method DivideOutPowersOfTwo(prod0: U256, prod1: U256, denominator: U256, shift: nat, ghost q: nat)
    returns (quotient: U256)
    requires denominator > 0 && shift == TrailingZeros(denominator) < 256
    requires prod1 * W256 + prod0 == denominator * q && q < W256
    ensures quotient == q
  {
    hide *;
    Widths();
    OddPartIsOdd(denominator, shift);
    var odd := Shr(denominator, shift);
    var low := ShiftedLowWord(prod0, prod1, shift);
    var inv := ModInv(odd);
    ghost var product := prod1 * W256 + prod0;
    ShiftedLowWordExact(prod0, prod1, shift);
    OddPartPath(denominator, shift, odd, product, q, inv, low);
    quotient := Mod(low * inv, W256);
  }

  lemma ShrShrinks(x: nat, shift: nat)
    ensures Shr(x, shift) <= x
  {
    DivMod(x, Pow2(shift));
  }

  /** floor(a * b / denominator). */
  method MulDiv(a: U256, b: U256, denominator: U256) returns (r: Result<U256>)
    ensures r == FloorQuotient(a, b, denominator)
  {
    if denominator == 0 {
      return Err(ZeroDenominator);
    }
    ghost var p := a * b;
    DivMod(p, W256);
    DivMod(p, denominator);
    var prod0: U256 := Mod(a * b, W256);
    var overflow := a * b >= W256;
    if denominator == 1 {
      DivModByOne(p);
      return if overflow then Err(Overflow) else Ok(prod0);
    }
    if !overflow {
      return Ok(Div(prod0, denominator));
    }
    HighWordFits(a, b);
    var core := MulDivCore(prod0, Div(a * b, W256), denominator, a * b);
    if core.Err? {
      return Err(core.error);
    }
    return Ok(core.value.0);
  }

  lemma HighWordFits(a: U256, b: U256)
    ensures Div(a * b, W256) < W256
  {
    hide *;
    MulStrict2(a, W256, b, W256);
    FloorAtLeast(a * b, W256, W256);
  }

  method RoundUpIfRemainder(value: U256, hasRemainder: bool) returns (r: Result<U256>)
    ensures r == RoundUp(value, hasRemainder)
  {
    if hasRemainder {
      r := if value + 1 >= W256 then Err(Overflow) else Ok(value + 1);
    } else {
      r := Ok(value);
    }
  }

  /** ceil(a * b / denominator). */
  method MulDivRoundingUp(a: U256, b: U256, denominator: U256) returns (r: Result<U256>)
    ensures r == CeilQuotient(a, b, denominator)
  {
    if denominator == 0 {
      return Err(ZeroDenominator);
    }
    CeilIsRoundedFloor(a, b, denominator);
    ghost var p := a * b;
    DivMod(p, W256);
    DivMod(p, denominator);
    var prod0: U256 := Mod(a * b, W256);
    var overflow := a * b >= W256;
    if denominator == 1 {
      DivModByOne(p);
      return if overflow then Err(Overflow) else Ok(prod0);
    }
    if !overflow {
      r := RoundUpIfRemainder(Div(prod0, denominator), Mod(prod0, denominator) != 0);
      return;
    }
    HighWordFits(a, b);
    var core := MulDivCore(prod0, Div(a * b, W256), denominator, a * b);
    if core.Err? {
      return Err(core.error);
    }
    r := RoundUpIfRemainder(core.value.0, core.value.1);
  }

  lemma CeilIsRoundedFloor(a: nat, b: nat, d: nat)
    requires d > 0
    ensures CeilQuotient(a, b, d) == if Div(a * b, d) >= W256 then Err(Overflow)
                                     else RoundUp(Div(a * b, d), Mod(a * b, d) != 0)
  {
  }

  // --------------------------------------------------------- the Q96 forms

  /** floor(amount * 2^96 / denominator) on the special-cased paths. */
  function MulQ96Div(amount: U256, denominator: U256): Result<nat> {
    if denominator == 0 then Err(ZeroDenominator)
    else if amount == 0 then Ok(0)
    else if denominator == 1 then ShlChecked(amount, 96)
    else if IsPowerOfTwo(denominator) then
      var shift := TrailingZeros(denominator);
      if shift <= 96 then ShlChecked(amount, 96 - shift)
      else Ok(Shr(amount, shift - 96))
    else if amount <= Shr(W256 - 1, 96) then Ok(Div(Shl(amount, 96, 256), denominator))
    else if Shr(amount, 160) >= denominator then Err(Overflow)
    else Narrow(Div(Shl(amount, 96, 512), denominator))
  }

  /** `amount << left` behind its overflow test. */
  function ShlChecked(amount: U256, left: nat): Result<nat> {
    if left == 0 then Ok(amount)
    else if amount > Shr(W256 - 1, left) then Err(Overflow)
    else Ok(Shl(amount, left, 256))
  }

  /** A 512-bit value as a 256-bit one. */
  function Narrow(value: nat): Result<nat> {
    if Div(value, W256) != 0 then Err(Overflow) else Ok(Mod(value, W256))
  }

  function RoundUp(value: nat, hasRemainder: bool): Result<nat> {
    if !hasRemainder then Ok(value)
    else if value + 1 >= W256 then Err(Overflow) else Ok(value + 1)
  }

  /** ceil(amount * 2^96 / denominator) on the special-cased paths. */
  function MulQ96DivRoundingUp(amount: U256, denominator: U256): Result<nat> {
    if denominator == 0 then Err(ZeroDenominator)
    else if amount == 0 then Ok(0)
    else if denominator == 1 then ShlChecked(amount, 96)
    else if IsPowerOfTwo(denominator) then
      var shift := TrailingZeros(denominator);
      if shift <= 96 then ShlChecked(amount, 96 - shift)
      else RoundUp(Shr(amount, shift - 96), And(amount, LowMask(shift - 96)) != 0)
    else if amount <= Shr(W256 - 1, 96) then
      var shifted := Shl(amount, 96, 256);
      RoundUp(Div(shifted, denominator), Mod(shifted, denominator) != 0)
    else if Shr(amount, 160) >= denominator then Err(Overflow)
    else
      var numerator := Shl(amount, 96, 512);
      var quotient :- Narrow(Div(numerator, denominator));
      RoundUp(quotient, Mod(numerator, denominator) != 0)
  }

  /** `(1 << n) - 1`. */
  function LowMask(n: nat): nat {
    Pow2(n) - 1
  }

  lemma LowMaskDef(n: nat)
    ensures LowMask(n) == Pow2(n) - 1
  {
  }

  /** The overflow test before a left shift is exact, and the shift then loses nothing. */
  lemma ShlCheckedExact(amount: U256, k: nat)
    requires k <= 256
    ensures amount <= Shr(W256 - 1, k) <==> amount * Pow2(k) < W256
    ensures ShlChecked(amount, k)
         == if amount * Pow2(k) < W256 then Ok(amount * Pow2(k)) else Err(Overflow)
    ensures amount * Pow2(k) < W256 ==> Shl(amount, k, 256) == amount * Pow2(k)
  {
    assert Pow2(0) == 1;
    FloorAtLeast(W256 - 1, Pow2(k), amount);
    DivMod(amount * Pow2(k), W256);
  }

  /** Dividing amount * 2^96 by 2^shift. */
  lemma Q96OverPowerOfTwo(amount: nat, shift: nat)
    ensures shift <= 96 ==> Div(amount * Q96, Pow2(shift)) == amount * Pow2(96 - shift)
    ensures shift <= 96 ==> Mod(amount * Q96, Pow2(shift)) == 0
    ensures shift > 96 ==> Div(amount * Q96, Pow2(shift)) == Shr(amount, shift - 96)
    ensures shift > 96 ==> (Mod(amount * Q96, Pow2(shift)) == 0 <==> Mod(amount, Pow2(shift - 96)) == 0)
  {
    hide *;
    Widths();
    if shift <= 96 {
      Pow2Add(shift, 96 - shift);
      QuotientByFactor(amount, Pow2(shift), Pow2(96 - shift), Q96);
    } else {
      ShiftsAreProducts(amount, shift - 96, 256);
      Pow2Add(shift - 96, 96);
      QuotientByMultiple(amount, Pow2(shift - 96), Q96, Pow2(shift));
    }
  }

  /** The wide numerator amount << 96 is exact, and its high word decides the overflow. */
  lemma WideNumerator(amount: U256, d: nat)
    requires d > 0
    ensures Shl(amount, 96, 512) == amount * Q96
    ensures Div(amount * Q96, d) < W256 <==> Shr(amount, 160) < d
  {
    hide *;
    Widths();
    ShiftsAreProducts(amount, 96, 512);
    ShiftsAreProducts(amount, 160, 256);
    Pow2Add(96, 160);
    Pow2Add(256, 256);
    Pow2Monotone(96, 256);
    WideBelow(amount, Q96, W256, Pow2(512));
    var x := amount * Q96;
    DivMod(x, Pow2(512));
    assert W256 == Pow2(160) * Q96;
    QuotientByMultiple(amount, Pow2(160), Q96, W256);
    DivMod(x, W256);
    QuotientFits(Mod(x, W256), Div(x, W256), d, W256);
  }

  lemma WideBelow(a: nat, q: nat, w: nat, ww: nat)
    requires a < w && q <= w && ww == w * w && q > 0
    ensures a * q < ww
  {
    MulStrict(a, w, q);
    MulMono(q, w, w);
  }

  /** A power-of-two denominator: shifting by the difference of the exponents. */
  lemma Q96PowerOfTwo(amount: U256, d: U256)
    requires d > 0 && IsPowerOfTwo(d)
    ensures var shift := TrailingZeros(d);
            shift < 256
            && (shift <= 96 ==> (amount * Pow2(96 - shift) == Div(amount * Q96, d) && Mod(amount * Q96, d) == 0))
            && (shift > 96 ==> Shr(amount, shift - 96) == Div(amount * Q96, d))
            && (shift > 96 ==> (And(amount, LowMask(shift - 96)) != 0 <==> Mod(amount * Q96, d) != 0))
  {
    hide *;
    var shift := TrailingZeros(d);
    PowerOfTwoTest(d);
    ShiftIsBelowWidth(d);
    Q96OverPowerOfTwo(amount, shift);
    if shift > 96 {
      LowMaskDef(shift - 96);
      AndLowMask(amount, shift - 96);
    }
  }

  /** The Q96 form is the generic division with b = 2^96, errors included. */
  lemma MulQ96DivExact(amount: U256, d: U256)
    ensures MulQ96Div(amount, d) == FloorQuotient(amount, Q96, d)
  {
    hide Pow2, And, Shl, Shr, Div, Mod, IsPowerOfTwo, TrailingZeros, ShlChecked;
    if d != 0 {
      var x := amount * Q96;
      ShlCheckedExact(amount, 96);
      DivMod(x, d);
      if amount == 0 {
      } else if d == 1 {
        DivModByOne(x);
      } else if IsPowerOfTwo(d) {
        Q96PowerOfTwo(amount, d);
        if TrailingZeros(d) <= 96 {
          ShlCheckedExact(amount, 96 - TrailingZeros(d));
        } else {
          ShrFits(amount, TrailingZeros(d) - 96);
        }
      } else if x >= W256 {
        WideNumerator(amount, d);
        DivMod(Div(x, d), W256);
      }
    }
  }

  lemma ShrFits(x: U256, k: nat)
    ensures Shr(x, k) < W256
  {
    ShrShrinks(x, k);
  }

  /** The rounding-up Q96 form is the generic rounding-up division with b = 2^96. */
  lemma MulQ96DivRoundingUpExact(amount: U256, d: U256)
    ensures MulQ96DivRoundingUp(amount, d) == CeilQuotient(amount, Q96, d)
  {
    hide Pow2, And, Shl, Shr, Div, Mod, IsPowerOfTwo, TrailingZeros, ShlChecked;
    if d != 0 {
      var x := amount * Q96;
      ShlCheckedExact(amount, 96);
      DivMod(x, d);
      if amount == 0 {
      } else if d == 1 {
        DivModByOne(x);
      } else if IsPowerOfTwo(d) {
        var shift := TrailingZeros(d);
        Q96PowerOfTwo(amount, d);
        if shift <= 96 {
          ShlCheckedExact(amount, 96 - shift);
        } else {
          ShrFits(amount, shift - 96);
          assert CeilDiv(x, d) == if Mod(x, d) == 0 then Div(x, d) else Div(x, d) + 1;
        }
      } else if x >= W256 {
        WideNumerator(amount, d);
        DivMod(Div(x, d), W256);
      }
    }
  }
}
