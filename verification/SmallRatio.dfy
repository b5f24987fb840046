/**
  Exact U256 * u32 / u32 by limb-wise long division, as in
  src/core/math/small_ratio.rs.
*/
module SmallRatio {
  import opened Arith
  import opened Bits
  import opened Words
  import opened Wrappers
  import opened FullMath

  /** Quotient and remainder of one limb of a long division. */
  function DivStep(remainder: nat, limb: nat, denominator: nat): (nat, nat)
    requires denominator > 0
  {
    var current := remainder * W64 + limb;
    (LowLimb(Div(current, denominator)), Mod(current, denominator))
  }

  /** The leading limb is divided without a 128-bit division. */
  function DivideLeading(leading: nat, denominator: nat): (nat, nat)
    requires denominator > 0
  {
    if leading < denominator then (0, leading)
    else (Div(leading, denominator), Mod(leading, denominator))
  }

  /** `x as u64` and `x >> 64`. */
  function LowLimb(x: nat): nat {
    LimbPositive();
    Mod(x, W64)
  }

  function HighLimbs(x: nat): nat {
    LimbPositive();
    Div(x, W64)
  }

  lemma LimbPositive()
    ensures W64 > 0
  {
  }

  /** A number from its lowest limb and the limbs above it. */
  function Append(low: nat, rest: nat): nat {
    MulNonNegative(W64, rest);
    low + W64 * rest
  }

  function FromLimbs(q0: nat, q1: nat, q2: nat, q3: nat): nat {
    Append(q0, Append(q1, Append(q2, q3)))
  }

  function Low64(a0: nat, numerator: nat, denominator: nat): (nat, nat)
    requires denominator > 0
  {
    var product := a0 * numerator;
    var (q1, r1) := DivideLeading(HighLimbs(product), denominator);
    var (q0, r0) := DivStep(r1, LowLimb(product), denominator);
    (FromLimbs(q0, q1, 0, 0), r0)
  }

  function Low128(a0: nat, a1: nat, numerator: nat, denominator: nat): (nat, nat)
    requires denominator > 0
  {
    var product0 := a0 * numerator;
    var product1 := a1 * numerator + HighLimbs(product0);
    var (q2, r2) := DivideLeading(HighLimbs(product1), denominator);
    var (q1, r1) := DivStep(r2, LowLimb(product1), denominator);
    var (q0, r0) := DivStep(r1, LowLimb(product0), denominator);
    (FromLimbs(q0, q1, q2, 0), r0)
  }

  function Full(a0: nat, a1: nat, a2: nat, a3: nat, numerator: nat, denominator: nat): Result<(nat, nat)>
    requires denominator > 0
  {
    var product0 := a0 * numerator;
    var product1 := a1 * numerator + HighLimbs(product0);
    var product2 := a2 * numerator + HighLimbs(product1);
    var product3 := a3 * numerator + HighLimbs(product2);
    DivideLimbs(LowLimb(product0), LowLimb(product1), LowLimb(product2), LowLimb(product3), HighLimbs(product3),
                denominator)
  }

  /** Long division of five limbs whose quotient must fit in four. */
  function DivideLimbs(p0: nat, p1: nat, p2: nat, p3: nat, p4: nat, denominator: nat): Result<(nat, nat)>
    requires denominator > 0
  {
    if p4 >= denominator then Err(Overflow)
    else
      var (q3, r3) := DivStep(p4, p3, denominator);
      var (q2, r2) := DivStep(r3, p2, denominator);
      var (q1, r1) := DivStep(r2, p1, denominator);
      var (q0, r0) := DivStep(r1, p0, denominator);
      Ok((FromLimbs(q0, q1, q2, q3), r0))
  }

  /** Quotient and remainder of amount * numerator / denominator. */
  function MulDivRem(amount: U256, numerator: U32, denominator: U32): Result<(nat, nat)> {
    if denominator == 0 then Err(ZeroDenominator)
    else if amount == 0 || numerator == 0 then Ok((0, 0))
    else if numerator == denominator then Ok((amount, 0))
    else
      var a0, u1 := LowLimb(amount), HighLimbs(amount);
      var a1, u2 := LowLimb(u1), HighLimbs(u1);
      var a2, a3 := LowLimb(u2), HighLimbs(u2);
      if a1 == 0 && a2 == 0 && a3 == 0 then Ok(Low64(a0, numerator, denominator))
      else if a2 == 0 && a3 == 0 then Ok(Low128(a0, a1, numerator, denominator))
      else Full(a0, a1, a2, a3, numerator, denominator)
  }

  function MulDivU32Floor(amount: U256, numerator: U32, denominator: U32): Result<nat> {
    var (quotient, _) :- MulDivRem(amount, numerator, denominator);
    Ok(quotient)
  }

  function MulDivU32Ceil(amount: U256, numerator: U32, denominator: U32): Result<nat> {
    var (quotient, remainder) :- MulDivRem(amount, numerator, denominator);
    RoundUp(quotient, remainder != 0)
  }

  // ------------------------------------------------------------- exactness

  /**
    One limb of the long division: when `high` is d*quotient + remainder, the
    limb extends both to high*W64 + limb.  The remainder stays below d, so the
    limb quotient fits in 64 bits and `as u64` loses nothing.
  */
  lemma DivStepExact(high: nat, q: nat, r: nat, limb: nat, d: nat)
    requires d > 0 && r < d && limb < W64 && high == d * q + r
    ensures var (q', r') := DivStep(r, limb, d);
            r' < d && q' < W64 && limb + W64 * high == d * (q' + W64 * q) + r'
  {
    hide Div, Mod, Bits.Pow2;
    MulNonNegative(r, W64);
    var current := r * W64 + limb;
    assert DivStep(r, limb, d) == (Mod(Div(current, d), W64), Mod(current, d));
    QuotientFits(limb, r, d, W64);
    DivMod(Div(current, d), W64);
    DivMod(current, d);
    LongDivisionIdentity(high, q, r, limb, d, W64, Div(current, d), Mod(current, d));
  }

  lemma LongDivisionIdentity(high: int, q: int, r: int, limb: int, d: int, b: int, q': int, r': int)
    requires high == d * q + r && r * b + limb == d * q' + r'
    ensures limb + b * high == d * (q' + b * q) + r'
  {
    assert b * (d * q) == d * (b * q);
  }

  lemma DivideLeadingExact(leading: nat, d: nat)
    requires d > 0
    ensures var (q, r) := DivideLeading(leading, d); r < d && leading == d * q + r
  {
    DivMod(leading, d);
  }

  /** Splitting off a limb of a product: p + W64 * carry. */
  lemma LimbSplit(x: nat)
    ensures x == LowLimb(x) + W64 * HighLimbs(x) && LowLimb(x) < W64
  {
    DivMod(x, W64);
  }

  /** Multiplying limb by limb with carries multiplies the number. */
  lemma CarryIdentity(a: int, rest: int, n: int, carry: int, b: int, product: int, low: int, high: int)
    requires product == a * n + carry && product == low + b * high
    ensures low + b * (rest * n + high) == (a + b * rest) * n + carry
  {
    assert (a + b * rest) * n == a * n + b * (rest * n);
  }

  lemma Low64Exact(a0: nat, n: nat, d: nat)
    requires d > 0
    ensures var (q, r) := Low64(a0, n, d); r < d && a0 * n == d * q + r
  {
    var product := a0 * n;
    LimbSplit(product);
    var high := HighLimbs(product);
    DivideLeadingExact(high, d);
    var (q1, r1) := DivideLeading(high, d);
    DivStepExact(high, q1, r1, LowLimb(product), d);
    FromLimbsShort(DivStep(r1, LowLimb(product), d).0, q1, 0);
  }

  lemma FromLimbsShort(q0: nat, q1: nat, q2: nat)
    ensures FromLimbs(q0, q1, q2, 0) == q0 + W64 * (q1 + W64 * q2)
    ensures FromLimbs(q0, q1, 0, 0) == q0 + W64 * q1
  {
  }

  lemma Low128Exact(a0: nat, a1: nat, n: nat, d: nat)
    requires d > 0
    ensures var (q, r) := Low128(a0, a1, n, d); r < d && (a0 + W64 * a1) * n == d * q + r
  {
    hide LowLimb, HighLimbs, DivStep, DivideLeading, FromLimbs, Bits.Pow2;
    var product0 := a0 * n;
    LimbSplit(product0);
    var product1 := a1 * n + HighLimbs(product0);
    LimbSplit(product1);
    var high := HighLimbs(product1);
    DivideLeadingExact(high, d);
    var (q2, r2) := DivideLeading(high, d);
    DivStepExact(high, q2, r2, LowLimb(product1), d);
    var (q1, r1) := DivStep(r2, LowLimb(product1), d);
    DivStepExact(product1, q1 + W64 * q2, r1, LowLimb(product0), d);
    var (q0, r0) := DivStep(r1, LowLimb(product0), d);
    FromLimbsShort(q0, q1, q2);
    CarryIdentity(a0, a1, n, 0, W64, product0, LowLimb(product0), HighLimbs(product0));
  }

  /** The limbs of the full product, least significant first. */
  lemma FullProduct(a0: nat, a1: nat, a2: nat, a3: nat, n: nat)
    ensures var x0 := a0 * n;
            var x1 := a1 * n + HighLimbs(x0);
            var x2 := a2 * n + HighLimbs(x1);
            var x3 := a3 * n + HighLimbs(x2);
            Append(LowLimb(x0), Append(LowLimb(x1), Append(LowLimb(x2), x3)))
            == FromLimbs(a0, a1, a2, a3) * n
  {
    hide LowLimb, HighLimbs;
    var x0 := a0 * n;
    LimbSplit(x0);
    var x1 := a1 * n + HighLimbs(x0);
    LimbSplit(x1);
    var x2 := a2 * n + HighLimbs(x1);
    LimbSplit(x2);
    var u2 := a2 + W64 * a3;
    var u1 := a1 + W64 * u2;
    CarryIdentity(a2, a3, n, HighLimbs(x1), W64, x2, LowLimb(x2), HighLimbs(x2));
    CarryIdentity(a1, u2, n, HighLimbs(x0), W64, x1, LowLimb(x1), HighLimbs(x1));
    CarryIdentity(a0, u1, n, 0, W64, x0, LowLimb(x0), HighLimbs(x0));
  }

  /** Four limbs fit in 256 bits; a fifth limb counts in units of 2^256. */
  lemma FourLimbs(p0: nat, p1: nat, p2: nat, p3: nat, p4: nat)
    requires p0 < W64 && p1 < W64 && p2 < W64 && p3 < W64
    ensures FromLimbs(p0, p1, p2, p3) < W256
    ensures FromLimbs(p0, p1, p2, Append(p3, p4)) == p4 * W256 + FromLimbs(p0, p1, p2, p3)
  {
    hide *;
    LimbPowers();
    var b := W64;
    AppendDef(p2, p3);
    AppendDef(p1, Append(p2, p3));
    FromLimbsDef(p0, p1, p2, p3);
    AppendDef(p0, Append(p1, Append(p2, p3)));
    AppendBelow(p2, p3, b, b);
    AppendBelow(p1, Append(p2, p3), b, b * b);
    AppendBelow(p0, Append(p1, Append(p2, p3)), b, b * (b * b));
    FromLimbsDef(p0, p1, p2, Append(p3, p4));
    AppendDef(p3, p4);
    AppendDef(p2, Append(p3, p4));
    AppendDef(p1, Append(p2, Append(p3, p4)));
    AppendDef(p0, Append(p1, Append(p2, Append(p3, p4))));
    FifthLimb(p0, p1, p2, p3, p4, b);
  }

  lemma LimbPowers()
    ensures W256 == W64 * (W64 * (W64 * W64))
  {
    Pow2Add(64, 64);
    Pow2Add(64, 128);
    Pow2Add(64, 192);
  }

  lemma AppendBelow(low: nat, rest: nat, b: nat, m: nat)
    requires low < b && rest < m
    ensures low + b * rest < b * m
  {
    MulMono(rest + 1, m, b);
  }

  lemma FifthLimb(p0: int, p1: int, p2: int, p3: int, p4: int, b: int)
    ensures p0 + b * (p1 + b * (p2 + b * (p3 + b * p4)))
         == p4 * (b * (b * (b * b))) + (p0 + b * (p1 + b * (p2 + b * p3)))
  {
    var x3 := p3 + b * p4;
    assert b * x3 == b * p3 + (b * b) * p4;
    assert b * (p2 + b * x3) == b * (p2 + b * p3) + b * ((b * b) * p4);
    assert b * (p1 + b * (p2 + b * x3)) == b * (p1 + b * (p2 + b * p3)) + b * (b * ((b * b) * p4));
  }

  /** The five limbs, and the number they are. */
  lemma DivideLimbsExact(p0: nat, p1: nat, p2: nat, p3: nat, p4: nat, d: nat)
    requires p0 < W64 && p1 < W64 && p2 < W64 && p3 < W64 && d > 0
    ensures var x := FromLimbs(p0, p1, p2, Append(p3, p4));
            match DivideLimbs(p0, p1, p2, p3, p4, d)
            case Err(e) => e == Overflow && Div(x, d) >= W256
            case Ok(qr) => qr.1 < d && x == d * qr.0 + qr.1 && Div(x, d) < W256
  {
    hide DivStep, Append, FromLimbs, Div, Bits.Pow2;
    FourLimbs(p0, p1, p2, p3, p4);
    QuotientFits(FromLimbs(p0, p1, p2, p3), p4, d, W256);
    if p4 < d {
      LongDivision(p0, p1, p2, p3, p4, d);
    }
  }

  /** The full path: exact quotient and remainder, or a quotient of more than 256 bits. */
  lemma FullExact(a0: nat, a1: nat, a2: nat, a3: nat, n: nat, d: nat)
    requires d > 0
    ensures FromLimbs(a0, a1, a2, a3) * n >= 0
    ensures var x := FromLimbs(a0, a1, a2, a3) * n;
            match Full(a0, a1, a2, a3, n, d)
            case Err(e) => e == Overflow && Div(x, d) >= W256
            case Ok(qr) => qr.1 < d && x == d * qr.0 + qr.1 && Div(x, d) < W256
  {
    hide LowLimb, HighLimbs, DivStep, Append, FromLimbs, Div, DivideLimbs, Bits.Pow2;
    MulNonNegative(FromLimbs(a0, a1, a2, a3), n);
    var x0 := a0 * n;
    var x1 := a1 * n + HighLimbs(x0);
    var x2 := a2 * n + HighLimbs(x1);
    var x3 := a3 * n + HighLimbs(x2);
    FullProduct(a0, a1, a2, a3, n);
    LimbSplit(x0);
    LimbSplit(x1);
    LimbSplit(x2);
    LimbSplit(x3);
    var p0, p1, p2, p3, p4 := LowLimb(x0), LowLimb(x1), LowLimb(x2), LowLimb(x3), HighLimbs(x3);
    AppendDef(p3, p4);
    FromLimbsDef(p0, p1, p2, x3);
    FromLimbsDef(p0, p1, p2, Append(p3, p4));
    DivideLimbsExact(p0, p1, p2, p3, p4, d);
  }

  lemma AppendDef(low: nat, rest: nat)
    ensures Append(low, rest) == low + W64 * rest
  {
  }

  lemma FromLimbsDef(q0: nat, q1: nat, q2: nat, q3: nat)
    ensures FromLimbs(q0, q1, q2, q3) == Append(q0, Append(q1, Append(q2, q3)))
  {
  }

  lemma LongDivision(p0: nat, p1: nat, p2: nat, p3: nat, p4: nat, d: nat)
    requires p0 < W64 && p1 < W64 && p2 < W64 && p3 < W64 && p4 < d
    ensures var (q3, r3) := DivStep(p4, p3, d);
            var (q2, r2) := DivStep(r3, p2, d);
            var (q1, r1) := DivStep(r2, p1, d);
            var (q0, r0) := DivStep(r1, p0, d);
            r0 < d && FromLimbs(p0, p1, p2, Append(p3, p4)) == d * FromLimbs(q0, q1, q2, q3) + r0
  {
    hide DivStep;
    var (q3, r3) := DivStep(p4, p3, d);
    DivStepExact(p4, 0, p4, p3, d);
    var (q2, r2) := DivStep(r3, p2, d);
    DivStepExact(Append(p3, p4), q3, r3, p2, d);
    var (q1, r1) := DivStep(r2, p1, d);
    DivStepExact(Append(p2, Append(p3, p4)), Append(q2, q3), r2, p1, d);
    var (q0, r0) := DivStep(r1, p0, d);
    DivStepExact(Append(p1, Append(p2, Append(p3, p4))), Append(q1, Append(q2, q3)), r1, p0, d);
  }

  /** A word is made of its limbs. */
  lemma IntoLimbs(x: nat)
    ensures var u1 := HighLimbs(x);
            var u2 := HighLimbs(u1);
            x == FromLimbs(LowLimb(x), LowLimb(u1), LowLimb(u2), HighLimbs(u2))
            && x == LowLimb(x) + W64 * u1
            && u1 == LowLimb(u1) + W64 * u2
            && (LowLimb(u2) == 0 && HighLimbs(u2) == 0 ==> u2 == 0)
  {
    hide LowLimb, HighLimbs;
    LimbSplit(x);
    LimbSplit(HighLimbs(x));
    LimbSplit(HighLimbs(HighLimbs(x)));
  }

  /**
    For every 256-bit amount and u32 ratio all three paths return the exact
    quotient and remainder; Overflow arises iff the quotient needs more than
    256 bits.
  */
  lemma MulDivRemExact(amount: U256, n: U32, d: U32)
    ensures MulDivRem(amount, n, d)
         == if d == 0 then Err(ZeroDenominator)
            else if Div(amount * n, d) >= W256 then Err(Overflow)
            else Ok((Div(amount * n, d), Mod(amount * n, d)))
  {
    if d == 0 {
    } else if amount == 0 || n == 0 {
      assert amount * n == 0;
      DivMod(0, d);
    } else if n == d {
      assert amount * n == d * amount;
      DivModUnique(amount * n, d, amount, 0);
    } else {
      LimbPathsExact(amount, n, d);
    }
  }

  lemma LimbPathsExact(amount: U256, n: U32, d: U32)
    requires d != 0 && amount != 0 && n != 0 && n != d
    ensures MulDivRem(amount, n, d)
         == if Div(amount * n, d) >= W256 then Err(Overflow)
            else Ok((Div(amount * n, d), Mod(amount * n, d)))
  {
    hide LowLimb, HighLimbs, FromLimbs, Low64, Low128, Full, Div, Mod, Bits.Pow2;
    var u1 := HighLimbs(amount);
    var u2 := HighLimbs(u1);
    var a0, a1, a2, a3 := LowLimb(amount), LowLimb(u1), LowLimb(u2), HighLimbs(u2);
    var x := amount * n;
    IntoLimbs(amount);
    LimbSplit(amount);
    LimbSplit(u1);
    if a1 == 0 && a2 == 0 && a3 == 0 {
      ShortQuotientFits(amount, a0, 0, n, d);
      Low64Exact(a0, n, d);
      var (q, r) := Low64(a0, n, d);
      DivModUnique(x, d, q, r);
    } else if a2 == 0 && a3 == 0 {
      ShortQuotientFits(amount, a0, a1, n, d);
      Low128Exact(a0, a1, n, d);
      var (q, r) := Low128(a0, a1, n, d);
      DivModUnique(x, d, q, r);
    } else {
      FullExact(a0, a1, a2, a3, n, d);
      var full := Full(a0, a1, a2, a3, n, d);
      if full.Ok? {
        DivModUnique(x, d, full.value.0, full.value.1);
      }
    }
  }

  /** Two limbs times a u32 never reach 256 bits. */
  lemma ShortQuotientFits(amount: nat, a0: nat, a1: nat, n: U32, d: nat)
    requires d > 0 && a0 < W64 && a1 < W64 && amount == a0 + W64 * a1
    ensures Div(amount * n, d) < W256
  {
    hide *;
    Widths();
    Pow2Add(64, 64);
    Pow2Add(128, 32);
    Pow2StrictlyMonotone(160, 256);
    AppendBelow(a0, a1, W64, W64);
    DivMod(amount * n, d);
    MulStrict2(amount, W128, n, W32);
  }

  lemma FloorExact(amount: U256, n: U32, d: U32)
    ensures MulDivU32Floor(amount, n, d) == FloorQuotient(amount, n, d)
  {
    MulDivRemExact(amount, n, d);
  }

  lemma CeilExact(amount: U256, n: U32, d: U32)
    ensures MulDivU32Ceil(amount, n, d) == CeilQuotient(amount, n, d)
  {
    hide Div, Mod;
    MulDivRemExact(amount, n, d);
    if d != 0 {
      CeilIsRoundedFloor(amount, n, d);
    }
  }
}
