/**
  The wide multiplications and the binary logarithm of src/core/math/tick.rs.
*/
module TickMath {
  import opened Arith
  import opened Bits
  import opened Words
  import opened PoolTypes

  // ------------------------------------------------- 64-bit limb products

  function LowHalf(a: nat): nat {
    And(a, Pow2(64) - 1)
  }

  function HighHalf(a: nat): nat {
    Shr(a, 64)
  }

  function Product(a: nat, b: nat): nat {
    MulNonNegative(a, b);
    a * b
  }

  /** The carry column of a two-limb product. */
  function MidColumn(a: nat, b: nat): nat {
    var ll := Product(LowHalf(a), LowHalf(b));
    var lh := Product(LowHalf(a), HighHalf(b));
    var hl := Product(HighHalf(a), LowHalf(b));
    Shr(ll, 64) + LowHalf(lh) + LowHalf(hl)
  }

  /** `mul_hi_u128`. */
  function MulHi(a: U128, b: U128): nat {
    var lh := Product(LowHalf(a), HighHalf(b));
    var hl := Product(HighHalf(a), LowHalf(b));
    var hh := Product(HighHalf(a), HighHalf(b));
    hh + Shr(lh, 64) + Shr(hl, 64) + Shr(MidColumn(a, b), 64)
  }

  /** `widening_mul_u128`: high and low half. */
  function WideningMul(a: U128, b: U128): (nat, nat) {
    (MulHi(a, b), Or(Shl(LowHalf(MidColumn(a, b)), 64, 128), LowHalf(Product(LowHalf(a), LowHalf(b)))))
  }

  lemma Limbs(a: nat)
    ensures a == HighHalf(a) * W64 + LowHalf(a)
    ensures 0 <= LowHalf(a) < W64 == Pow2(64)
  {
    hide *;
    LimbsAre(a);
    Widths();
    DivMod(a, Pow2(64));
    assert Pow2(64) * Div(a, Pow2(64)) == Div(a, Pow2(64)) * Pow2(64);
  }

  lemma LimbsAre(a: nat)
    ensures LowHalf(a) == Mod(a, Pow2(64)) && HighHalf(a) == Div(a, Pow2(64))
  {
    hide And, Shr, Pow2, Div, Mod;
    AndLowMask(a, 64);
    ShiftsAreProducts(a, 64, 128);
  }

  /** The columns of a product of two-limb numbers, for limbs below w. */
  lemma Columns(w: nat, al: nat, ah: nat, bl: nat, bh: nat, llHi: nat, llLo: nat, lhHi: nat, lhLo: nat, hlHi: nat,
                hlLo: nat,
                midHi: nat, midLo: nat)
    requires al * bl == llHi * w + llLo && al * bh == lhHi * w + lhLo && ah * bl == hlHi * w + hlLo
    requires llHi + lhLo + hlLo == midHi * w + midLo
    ensures (ah * w + al) * (bh * w + bl) == (ah * bh + lhHi + hlHi + midHi) * (w * w) + midLo * w + llLo
  {
    FourProducts(w, al, ah, bl, bh);
    CollectColumns(w, ah * bh, llHi, llLo, lhHi, lhLo, hlHi, hlLo, midHi, midLo);
  }

  lemma FourProducts(w: int, al: int, ah: int, bl: int, bh: int)
    ensures (ah * w + al) * (bh * w + bl) == (ah * bh) * (w * w) + (al * bh + ah * bl) * w + al * bl
  {
    assert (ah * w) * (bh * w) == (ah * bh) * (w * w);
    assert (ah * w) * bl == (ah * bl) * w && al * (bh * w) == (al * bh) * w;
  }

  lemma CollectColumns(w: int, hh: int, llHi: int, llLo: int, lhHi: int, lhLo: int, hlHi: int, hlLo: int,
                       midHi: int, midLo: int)
    requires llHi + lhLo + hlLo == midHi * w + midLo
    ensures hh * (w * w) + ((lhHi * w + lhLo) + (hlHi * w + hlLo)) * w + (llHi * w + llLo)
         == (hh + lhHi + hlHi + midHi) * (w * w) + midLo * w + llLo
  {
    assert (lhHi * w) * w == lhHi * (w * w) && (hlHi * w) * w == hlHi * (w * w);
    assert (llHi + lhLo + hlLo) * w == midHi * (w * w) + midLo * w;
  }

  /** The two halves are the exact 256-bit product, and the high half is its floor. */
  lemma WideningMulExact(a: U128, b: U128)
    ensures var (hi, lo) := WideningMul(a, b);
            hi * W128 + lo == a * b && 0 <= lo < W128 && 0 <= hi < W128
    ensures a * b >= 0 && MulHi(a, b) == Div(a * b, W128)
  {
    hide *;
    Widths();
    Pow2Add(64, 64);
    var al, ah, bl, bh := LowHalf(a), HighHalf(a), LowHalf(b), HighHalf(b);
    var ll, lh, hl, mid := Product(al, bl), Product(al, bh), Product(ah, bl), MidColumn(a, b);
    ProductIs(al, bl);
    ProductIs(al, bh);
    ProductIs(ah, bl);
    ProductIs(ah, bh);
    Limbs(a);
    Limbs(b);
    Limbs(ll);
    Limbs(lh);
    Limbs(hl);
    Limbs(mid);
    ProductParts(a, b);
    Columns(W64, al, ah, bl, bh, HighHalf(ll), LowHalf(ll), HighHalf(lh), LowHalf(lh), HighHalf(hl), LowHalf(hl),
            HighHalf(mid), LowHalf(mid));
    var hi, lo := MulHi(a, b), LowHalf(mid) * W64 + LowHalf(ll);
    LowHalfIs(LowHalf(mid), LowHalf(ll));
    MulMono(LowHalf(mid) + 1, W64, W64);
    OneMoreTimes(LowHalf(mid), W64);
    MulNonNegative(a, b);
    MulNonNegative(LowHalf(mid), W64);
    Commute(hi, W128);
    DivModUnique(a * b, W128, hi, lo);
    HighHalfFits(a, b, hi, lo, W128);
  }

  /** No 128-bit column overflows: the limb products, the carry column, and the high half with its partial sums. */
  lemma NoColumnOverflows(a: U128, b: U128)
    ensures forall x, y :: x in [LowHalf(a), HighHalf(a)] && y in [LowHalf(b), HighHalf(b)] ==> Product(x, y) < W128
    ensures MidColumn(a, b) < W128
    ensures var (lh, hl, hh) := (Product(LowHalf(a), HighHalf(b)), Product(HighHalf(a), LowHalf(b)),
                                 Product(HighHalf(a), HighHalf(b)));
            hh <= hh + Shr(lh, 64) <= hh + Shr(lh, 64) + Shr(hl, 64) <= MulHi(a, b) < W128
  {
    hide *;
    WideningMulExact(a, b);
    ProductParts(a, b);
    HalvesFit(a);
    HalvesFit(b);
    forall x, y | x in [LowHalf(a), HighHalf(a)] && y in [LowHalf(b), HighHalf(b)]
      ensures Product(x, y) < W128
    {
      LimbProductFits(x, y);
    }
    var ll, lh, hl := Product(LowHalf(a), LowHalf(b)), Product(LowHalf(a), HighHalf(b)),
                      Product(HighHalf(a), LowHalf(b));
    LimbProductFits(LowHalf(a), LowHalf(b));
    HalvesFit(ll);
    Limbs(lh);
    Limbs(hl);
    MidColumnIs(a, b);
    ThreeLimbs();
  }

  lemma HalvesFit(a: U128)
    ensures LowHalf(a) < W64 && HighHalf(a) < W64
  {
    hide *;
    Limbs(a);
    Widths();
    Pow2Add(64, 64);
    MulCancel(HighHalf(a), W64, W64);
  }

  lemma LimbProductFits(x: nat, y: nat)
    requires x < W64 && y < W64
    ensures Product(x, y) < W128
  {
    hide *;
    ProductIs(x, y);
    Widths();
    Pow2Add(64, 64);
    MulStrict2(x, W64, y, W64);
  }

  lemma MidColumnIs(a: nat, b: nat)
    ensures var (ll, lh, hl, hh) := (Product(LowHalf(a), LowHalf(b)), Product(LowHalf(a), HighHalf(b)),
                                     Product(HighHalf(a), LowHalf(b)), Product(HighHalf(a), HighHalf(b)));
            && MidColumn(a, b) == HighHalf(ll) + LowHalf(lh) + LowHalf(hl)
            && (a < W128 && b < W128 ==> MulHi(a, b) == hh + Shr(lh, 64) + Shr(hl, 64) + Shr(MidColumn(a, b), 64))
  {
    hide Shr, And, Product, LowHalf, Pow2;
  }

  lemma ThreeLimbs()
    ensures 3 * W64 <= W128
  {
    hide *;
    Widths();
    Pow2Add(64, 64);
    FourAtLeast();
    MulMono(3, W64, W64);
  }

  lemma FourAtLeast()
    ensures W64 >= 3
  {
    hide Pow2;
    Pow2Monotone(2, 64);
    SmallPower();
  }

  lemma SmallPower()
    ensures Pow2(2) == 4
  {
  }

  lemma OneMoreTimes(a: int, w: int)
    ensures (a + 1) * w == a * w + w
  {
  }

  lemma Commute(a: int, b: int)
    ensures a * b == b * a
  {
  }

  lemma ProductIs(a: nat, b: nat)
    ensures Product(a, b) == a * b
  {
  }

  lemma ProductParts(a: U128, b: U128)
    ensures var (al, ah, bl, bh) := (LowHalf(a), HighHalf(a), LowHalf(b), HighHalf(b));
            var (ll, lh, hl, hh) := (Product(al, bl), Product(al, bh), Product(ah, bl), Product(ah, bh));
            && MidColumn(a, b) == HighHalf(ll) + LowHalf(lh) + LowHalf(hl)
            && MulHi(a, b) == hh + HighHalf(lh) + HighHalf(hl) + HighHalf(MidColumn(a, b))
            && WideningMul(a, b).0 == MulHi(a, b)
            && WideningMul(a, b).1 == Or(Shl(LowHalf(MidColumn(a, b)), 64, 128), LowHalf(ll))
  {
    hide Shr, And, Or, Shl, Product, LowHalf;
  }

  lemma LowHalfIs(high: nat, low: nat)
    requires high < W64 && low < W64
    ensures Or(Shl(high, 64, 128), low) == high * W64 + low
  {
    hide *;
    Widths();
    Pow2Add(64, 64);
    ShiftsAreProducts(high, 64, 128);
    MulStrict(high, W64, W64);
    MulNonNegative(high, W64);
    DivMod(high * Pow2(64), Pow2(128));
    OrDisjoint(high, low, 64);
  }

  lemma HighHalfFits(a: nat, b: nat, hi: nat, lo: nat, w: nat)
    requires a < w && b < w && hi * w + lo == a * b
    ensures hi < w
  {
    MulStrict2(a, w, b, w);
    MulCancel(hi, w, w);
  }

  /** `smul_i128_u128`: signed high half and unsigned low half. */
  function SMul(a: I128, b: U128): (int, nat) {
    AbsFits(a);
    var (hi, lo) := WideningMul(Abs(a), b);
    if a >= 0 then (hi, lo)
    else if lo == 0 then (0 - hi, 0)
    else
      LowBelow(Abs(a), b);
      (0 - hi - 1, W128 - lo)
  }

  lemma AbsFits(a: I128)
    ensures Abs(a) < W128
  {
    TwiceW127();
  }

  lemma LowBelow(a: U128, b: U128)
    ensures WideningMul(a, b).1 < W128
  {
    hide WideningMul;
    WideningMulExact(a, b);
  }

  /** The signed product is exact as well, rounding its high half down. */
  lemma SMulExact(a: I128, b: U128)
    ensures var (hi, lo) := SMul(a, b);
            hi * W128 + lo == a * b && 0 <= lo < W128 && hi == FloorDiv(a * b, W128)
  {
    hide *;
    AbsFits(a);
    WideningMulExact(Abs(a), b);
    SMulIs(a, b);
    var (hi, lo) := WideningMul(Abs(a), b);
    NegatedHalves(a, Abs(a), b, hi, lo, W128);
    FloorOf(a * b, W128, SMul(a, b).0, SMul(a, b).1);
  }

  lemma SMulIs(a: I128, b: U128)
    requires 0 <= Abs(a) < W128 && WideningMul(Abs(a), b).1 < W128
    ensures var (hi, lo) := WideningMul(Abs(a), b);
            SMul(a, b) == if a >= 0 then (hi, lo) else if lo == 0 then (0 - hi, 0) else (0 - hi - 1, W128 - lo)
    ensures Abs(a) == if a >= 0 then a else 0 - a
  {
    hide WideningMul;
  }

  lemma NegatedHalves(a: int, m: int, b: int, hi: int, lo: int, w: int)
    requires m == (if a >= 0 then a else 0 - a) && hi * w + lo == m * b && 0 <= lo < w
    ensures a >= 0 ==> hi * w + lo == a * b
    ensures a < 0 && lo == 0 ==> (0 - hi) * w + 0 == a * b
    ensures a < 0 ==> (0 - hi - 1) * w + (w - lo) == a * b
  {
    if a < 0 {
      assert (0 - m) * b == 0 - m * b;
      assert (0 - hi) * w == 0 - hi * w;
      assert (0 - hi - 1) * w == 0 - hi * w - w;
    }
  }

  lemma FloorOf(x: int, w: int, q: int, r: int)
    requires w > 0 && x == q * w + r && 0 <= r < w
    ensures FloorDiv(x, w) == q
  {
    DivModUniqueInt(x, w, q, r);
  }

  // ------------------------------------------------------ binary logarithm

  /** x^(2^k), by k squarings. */
  function Squared(x: nat, k: nat): nat {
    if k == 0 then x
    else
      var y := Squared(x, k - 1);
      MulNonNegative(y, y);
      y * y
  }

  lemma {:induction false} PowerAdd(x: nat, m: nat, n: nat)
    ensures Power(x, m + n) == Power(x, m) * Power(x, n)
  {
    if m == 0 {
    } else {
      PowerAdd(x, m - 1, n);
      Associate(x, Power(x, m - 1), Power(x, n));
    }
  }

  lemma Associate(a: int, b: int, c: int)
    ensures (a * b) * c == a * (b * c)
  {
  }

  /** k squarings are the 2^k-th power. */
  lemma {:induction false} SquaredIsPower(x: nat, k: nat)
    ensures Squared(x, k) == Power(x, Pow2(k))
  {
    if k == 0 {
      assert Power(x, 1) == x * Power(x, 0);
    } else {
      SquaredIsPower(x, k - 1);
      PowerAdd(x, Pow2(k - 1), Pow2(k - 1));
    }
  }

  lemma {:induction false} SquaredMono(x: nat, y: nat, k: nat)
    requires x <= y
    ensures Squared(x, k) <= Squared(y, k)
  {
    if k > 0 {
      SquaredMono(x, y, k - 1);
      MulMono2(Squared(x, k - 1), Squared(y, k - 1), Squared(x, k - 1), Squared(y, k - 1));
    }
  }

  /** Squaring multiplies: (2^s * x)^(2^k). */
  lemma {:induction false} SquaredScaled(x: nat, s: nat, k: nat)
    ensures Pow2(s) * x >= 0 && s * Pow2(k) >= 0
    ensures Squared(Pow2(s) * x, k) == Pow2(s * Pow2(k)) * Squared(x, k)
  {
    MulNonNegative(Pow2(s), x);
    MulNonNegative(s, Pow2(k));
    if k == 0 {
    } else {
      SquaredScaled(x, s, k - 1);
      var e := s * Pow2(k - 1);
      assert s * Pow2(k) == e + e;
      Pow2Add(e, e);
      SquareOfProduct(Pow2(e), Squared(x, k - 1));
    }
  }

  /** One refinement step: a squared normalised number is renormalised by 2^127 or 2^128, which is the extracted bit. */
  lemma RefineOnce(r: U128, hi: nat, lo: nat, f: nat, r': nat)
    requires W127 <= r < W128 && hi * W128 + lo == r * r && lo < W128 && hi < W128
    requires f == (if hi >= W127 then 1 else 0)
    requires r' == if f != 0 then hi else 2 * hi + (if lo >= W127 then 1 else 0)
    ensures W127 <= r' < W128
    ensures r' * Pow2(127 + f) <= r * r < (r' + 1) * Pow2(127 + f)
  {
    hide *;
    Widths();
    TwiceW127();
    Pow2Step(127);
    assert 2 * W127 == W128 && Pow2(128) == 2 * Pow2(127);
    RefineBounds(r, hi, lo, W127);
  }

  lemma RefineBounds(r: nat, hi: nat, lo: nat, h: nat)
    requires h <= r < 2 * h && hi * (2 * h) + lo == r * r && lo < 2 * h && hi < 2 * h
    ensures hi >= h ==> hi * (2 * h) <= r * r < (hi + 1) * (2 * h)
    ensures hi < h ==> var r' := 2 * hi + (if lo >= h then 1 else 0);
                       h <= r' < 2 * h && r' * h <= r * r < (r' + 1) * h
  {
    assert (hi + 1) * (2 * h) == hi * (2 * h) + 2 * h;
    if hi < h {
      var r' := 2 * hi + (if lo >= h then 1 else 0);
      assert r' * h + (if lo >= h then lo - h else lo) == r * r;
      OneMoreTimes(r', h);
      MulMono2(h, r, h, r);
      assert (h - 1) * h == h * h - h;
      MulCancel(h - 1, r', h);
    }
  }

  /** One step of the bound: r0^(2^k) >= r * 2^(127*(2^k - 1) + bits). */
  lemma BoundStep(s: nat, r: nat, r': nat, e: nat, f: nat)
    requires s >= r * Pow2(e) && r' * Pow2(127 + f) <= r * r
    ensures s * s >= r' * Pow2(127 + f + e + e)
  {
    hide *;
    MulNonNegative(r, Pow2(e));
    MulMono2(r * Pow2(e), s, r * Pow2(e), s);
    SquareOfProduct(r, Pow2(e));
    Pow2Add(e, e);
    Pow2Add(127 + f, e + e);
    MulMono(r' * Pow2(127 + f), r * r, Pow2(e + e));
    Associate(r', Pow2(127 + f), Pow2(e + e));
  }

  /** The same step from above: a slack of c grows to at most 4c + 2. */
  lemma SlackStep(s: nat, r: nat, r': nat, e: nat, f: nat, c: nat, c': nat)
    requires s <= (r + c) * Pow2(e) && r * r < (r' + 1) * Pow2(127 + f)
    requires r < Pow2(128) && c * c <= Pow2(127) && 4 * c + 2 <= c'
    ensures s * s <= (r' + c') * Pow2(127 + f + e + e)
  {
    hide *;
    Pow2Step(127);
    Pow2Monotone(127, 127 + f);
    var q := Pow2(127 + f);
    SquaredSlack(r, c, r', Pow2(127), q, c');
    MulNonNegative(r + c, Pow2(e));
    MulMono2(s, (r + c) * Pow2(e), s, (r + c) * Pow2(e));
    SquareOfProduct(r + c, Pow2(e));
    Pow2Add(e, e);
    Pow2Add(127 + f, e + e);
    MulMono((r + c) * (r + c), (r' + c') * q, Pow2(e + e));
    Associate(r' + c', q, Pow2(e + e));
  }

  lemma SquaredSlack(r: nat, c: nat, r': nat, h: nat, q: nat, c': nat)
    requires r * r < (r' + 1) * q && r < 2 * h && h <= q && c * c <= h && 4 * c + 2 <= c'
    ensures (r + c) * (r + c) <= (r' + c') * q
  {
    assert (r + c) * (r + c) == r * r + 2 * (c * r) + c * c;
    MulMono(r, 2 * q, c);
    assert c * (2 * q) == 2 * (c * q);
    assert (r' + 1) * q + 4 * (c * q) + q == (r' + (4 * c + 2)) * q by {
      CollectSlack(r', c, q);
    }
    MulMono(r' + (4 * c + 2), r' + c', q);
  }

  lemma CollectSlack(r: int, c: int, q: int)
    ensures (r + 1) * q + 4 * (c * q) + q == (r + (4 * c + 2)) * q
  {
  }

  /** The slack after k steps. */
  function Slack(k: nat): nat {
    Pow2(2 * k + 1) - 1
  }

  lemma SlackGrows(k: nat)
    ensures Slack(0) == 1
    ensures 4 * Slack(k) + 2 <= Slack(k + 1)
    ensures k <= 14 ==> Slack(k) * Slack(k) <= Pow2(127) && Slack(k) <= Pow2(127)
  {
    hide Pow2;
    PowersOfOne();
    Pow2Step(2 * k + 1);
    Pow2Step(2 * k + 2);
    if k <= 14 {
      Pow2Add(2 * k + 1, 2 * k + 1);
      Pow2Monotone(4 * k + 2, 127);
      Pow2Monotone(2 * k + 1, 127);
      MulMono2(Slack(k), Pow2(2 * k + 1), Slack(k), Pow2(2 * k + 1));
    }
  }

  /** Exponent reached after k steps with the given bits. */
  function Exponent(k: nat, bits: nat): nat {
    127 * (Pow2(k) - 1) + bits
  }

  lemma LoopStarts(r0: nat)
    ensures Squared(r0, 0) == r0 && Exponent(0, 0) == 0 && Pow2(0) == 1
  {
    hide Pow2;
    PowersOfOne();
  }

  lemma ZeroAndOne(x: int, y: int, z: int)
    ensures x + 0 * y == x && z * 1 == z
  {
  }

  lemma TopBit(x: nat)
    requires x < W128
    ensures Shr(x, 127) == if x >= W127 then 1 else 0
  {
    hide *;
    Widths();
    TwiceW127();
    ShiftsAreProducts(x, 127, 128);
    if x >= W127 {
      DivModUnique(x, W127, 1, x - W127);
    } else {
      DivModUnique(x, W127, 0, x);
    }
  }

  lemma DoubledHigh(hi: nat, lo: nat)
    requires hi < W127 && lo < W128
    ensures Or(Shl(hi, 1, 128), Shr(lo, 127)) == 2 * hi + if lo >= W127 then 1 else 0
  {
    hide *;
    Widths();
    TwiceW127();
    TopBit(lo);
    PowersOfOne();
    ShiftsAreProducts(hi, 1, 128);
    DivMod(hi * Pow2(1), Pow2(128));
    OrDisjoint(hi, Shr(lo, 127), 1);
  }

  lemma PowersOfOne()
    ensures Pow2(1) == 2 && Pow2(0) == 1
  {
  }

  /** Setting fraction bit 63 - k of the logarithm. */
  lemma OrBit(start: nat, bits: nat, k: nat, f: nat)
    requires k <= 63 && f <= 1
    ensures start * Pow2(64) + bits * Pow2(64 - k) >= 0
    ensures Or(start * Pow2(64) + bits * Pow2(64 - k), Shl(f, 63 - k, 128))
         == start * Pow2(64) + (2 * bits + f) * Pow2(63 - k)
  {
    hide *;
    var high, low := start * Pow2(k) + bits, f * Pow2(63 - k);
    MulNonNegative(start, Pow2(k));
    MulNonNegative(f, Pow2(63 - k));
    Pow2Add(k, 64 - k);
    Pow2Step(63 - k);
    SplitShift(start, bits, f, Pow2(k), Pow2(63 - k));
    Pow2StrictlyMonotone(64 - k, 128);
    ShiftsAreProducts(f, 63 - k, 128);
    DivMod(low, Pow2(128));
    OrDisjoint(high, low, 64 - k);
  }

  lemma SplitShift(start: nat, bits: nat, f: nat, p: nat, q: nat)
    requires f <= 1
    ensures (start * p + bits) * (2 * q) == start * (p * (2 * q)) + bits * (2 * q)
    ensures (start * p + bits) * (2 * q) >= 0
    ensures start * (p * (2 * q)) + bits * (2 * q) + f * q == start * (p * (2 * q)) + (2 * bits + f) * q
    ensures f * q <= q
  {
    Associate(start, p, 2 * q);
    MulNonNegative(start, p);
    MulNonNegative(start * p + bits, 2 * q);
    assert bits * (2 * q) == (2 * bits) * q;
  }

  lemma NextExponent(r0: nat, k: nat, bits: nat, f: nat)
    requires bits < Pow2(k) && f <= 1
    ensures Exponent(k + 1, 2 * bits + f) == 127 + f + Exponent(k, bits) + Exponent(k, bits)
    ensures Squared(r0, k) * Squared(r0, k) == Squared(r0, k + 1)
    ensures 2 * bits + f < Pow2(k + 1)
  {
    Pow2Step(k);
  }

  lemma FinalBound(s: nat, u: nat, r: nat, bits: nat)
    requires s >= r * Pow2(Exponent(14, bits)) && Pow2(127) <= r < Pow2(128)
    requires u <= (r + Slack(14)) * Pow2(Exponent(14, bits))
    ensures s >= Pow2(127 * Pow2(14) + bits) && u < Pow2(127 * Pow2(14) + bits + 2)
  {
    hide *;
    ExponentIs(14, bits);
    SlackGrows(14);
    Pow2Step(127);
    Pow2Step(128);
    MulStrict(r + Slack(14), Pow2(129), Pow2(Exponent(14, bits)));
    Pow2Add(129, Exponent(14, bits));
    MulMono(Pow2(127), r, Pow2(Exponent(14, bits)));
    Pow2Add(127, Exponent(14, bits));
  }

  lemma ExponentIs(k: nat, bits: nat)
    ensures 127 + Exponent(k, bits) == 127 * Pow2(k) + bits
  {
    hide Pow2;
  }

  /** The fraction bits of a logarithm word, as a number. */
  function Fraction(log2: nat): nat {
    Div(Mod(log2, Pow2(64)), Pow2(50))
  }

  lemma FractionIs(start: nat, bits: nat)
    requires bits < Pow2(14)
    ensures start * Pow2(64) + bits * Pow2(50) >= 0
    ensures Fraction(start * Pow2(64) + bits * Pow2(50)) == bits
  {
    hide Pow2, Div, Mod;
    Pow2Add(14, 50);
    MulNonNegative(start, Pow2(64));
    MulNonNegative(bits, Pow2(50));
    MulStrict(bits, Pow2(14), Pow2(50));
    Commute(start, Pow2(64));
    DivModUnique(start * Pow2(64) + bits * Pow2(50), Pow2(64), start, bits * Pow2(50));
    Commute(bits, Pow2(50));
    DivModUnique(bits * Pow2(50), Pow2(50), bits, 0);
  }

  /**
    The refinement loop: r stays in [2^127, 2^128), the integer part is kept,
    and the 14 extracted bits F are a true lower bound of the logarithm's
    fraction, short of it by less than two units:
    r0^(2^14) >= 2^(127*2^14 + F), and (r0 + 1)^(2^14) < 2^(127*2^14 + F + 2).
  */
  method RefineLog2(r0: U128, start: nat) returns (log2: nat)
    requires W127 <= r0 < W128 && start < Pow2(64)
    ensures Fraction(log2) < Pow2(14) && log2 == start * Pow2(64) + Fraction(log2) * Pow2(50)
    ensures Squared(r0, 14) >= Pow2(127 * Pow2(14) + Fraction(log2))
    ensures Squared(r0 + 1, 14) < Pow2(127 * Pow2(14) + Fraction(log2) + 2)
  {
    hide *;
    Widths();
    log2 := start * Pow2(64);
    MulNonNegative(start, Pow2(64));
    var r := r0;
    ghost var bits: nat, k: nat := 0, 0;
    var i := 63;
    LoopStarts(r0);
    LoopStarts(r0 + 1);
    SlackGrows(0);
    ZeroAndOne(log2, Pow2(64), r0);
    ZeroAndOne(log2, Pow2(64), r0 + 1);
    while i >= 50
      invariant 49 <= i <= 63 && k == 63 - i
      invariant W127 <= r < W128
      invariant bits < Pow2(k)
      invariant log2 == start * Pow2(64) + bits * Pow2(64 - k)
      invariant Squared(r0, k) >= r * Pow2(Exponent(k, bits))
      invariant Squared(r0 + 1, k) <= (r + Slack(k)) * Pow2(Exponent(k, bits))
      decreases i
    {
      var (hi, lo) := WideningMul(r, r);
      WideningMulExact(r, r);
      var f := Shr(hi, 127);
      TopBit(hi);
      TopBit(lo);
      if hi < W127 {
        DoubledHigh(hi, lo);
      }
      var r' := if f != 0 then hi else Or(Shl(hi, 1, 128), Shr(lo, 127));
      RefineOnce(r, hi, lo, f, r');
      OrBit(start, bits, k, f);
      log2 := Or(log2, Shl(f, i, 128));
      BoundStep(Squared(r0, k), r, r', Exponent(k, bits), f);
      SlackGrows(k);
      SlackStep(Squared(r0 + 1, k), r, r', Exponent(k, bits), f, Slack(k), Slack(k + 1));
      NextExponent(r0, k, bits, f);
      NextExponent(r0 + 1, k, bits, f);
      r := r';
      bits := 2 * bits + f;
      k := k + 1;
      i := i - 1;
    }
    FinalBound(Squared(r0, 14), Squared(r0 + 1, 14), r, bits);
    FractionIs(start, bits);
  }

  // ------------------------------------------------- logarithm of a ratio

  /** `(msb - 128) << 64` as the upper half of a 128-bit word. */
  function IntegerPart(msb: nat): nat
    requires msb < 256
  {
    OffsetFits();
    if msb >= 128 then msb - 128 else Pow2(64) - (128 - msb)
  }

  lemma OffsetFits()
    ensures Pow2(8) == 256 < Pow2(63) < Pow2(64) && Pow2(64) == 2 * Pow2(63)
  {
    hide Pow2;
    Pow2Small();
    Pow2StrictlyMonotone(8, 63);
    Pow2Step(63);
  }

  lemma Pow2Small()
    ensures Pow2(8) == 256
  {
    assert Pow2(2) == 4;
    assert Pow2(4) == 16;
    assert Pow2(6) == 64;
  }

  /** The word built from integer part and fraction, as a signed number. */
  lemma SignedLog(msb: nat, bits: nat)
    requires msb < 256 && bits < Pow2(14)
    ensures 0 <= bits * Pow2(50) < Pow2(64)
    ensures IntegerPart(msb) * Pow2(64) + bits * Pow2(50) >= 0
    ensures AsI128(IntegerPart(msb) * Pow2(64) + bits * Pow2(50)) == (msb - 128) * Pow2(64) + bits * Pow2(50)
  {
    hide Pow2;
    OffsetFits();
    Widths();
    Pow2Add(14, 50);
    Pow2Add(64, 64);
    Pow2Add(63, 64);
    MulNonNegative(bits, Pow2(50));
    MulStrict(bits, Pow2(14), Pow2(50));
    SignedParts(msb, bits * Pow2(50), Pow2(64), Pow2(63));
  }

  lemma SignedParts(msb: nat, low: nat, w: nat, h: nat)
    requires msb < 256 < h && w == 2 * h && low < w
    ensures msb >= 128 ==> 0 <= (msb - 128) * w + low < h * w
    ensures msb < 128 ==> h * w <= (w - (128 - msb)) * w + low
                          && (w - (128 - msb)) * w + low - w * w == (msb - 128) * w + low
  {
    if msb >= 128 {
      MulNonNegative(msb - 128, w);
      MulMono(msb - 128 + 1, h, w);
      assert (msb - 128 + 1) * w == (msb - 128) * w + w;
    } else {
      MulMono(h, w - (128 - msb), w);
      assert (w - (128 - msb)) * w == w * w + (msb - 128) * w;
    }
  }

  /** Normalisation to 128 bits: a shift right rounds down, a shift left is exact. */
  lemma Normalised(ratio: nat, msb: nat)
    requires ratio < W256 && msb < 256 && Pow2(msb) <= ratio < Pow2(msb + 1)
    ensures msb >= 128 ==> W127 <= Shr(ratio, msb - 127) < W128
                           && Pow2(msb - 127) * Shr(ratio, msb - 127) <= ratio
                           && ratio <= Pow2(msb - 127) * (Shr(ratio, msb - 127) + 1)
    ensures msb < 128 ==> W127 <= Shl(ratio, 127 - msb, 256) < W128
                          && Shl(ratio, 127 - msb, 256) == Pow2(127 - msb) * ratio
  {
    hide *;
    Widths();
    if msb >= 128 {
      var s := msb - 127;
      ShiftsAreProducts(ratio, s, 256);
      FloorBounds(ratio, Pow2(s));
      Pow2Add(127, s);
      Pow2Add(128, s);
      FloorAtLeast(ratio, Pow2(s), Pow2(127));
      FloorAtLeast(ratio, Pow2(s), Pow2(128));
      Commute(Pow2(s), Div(ratio, Pow2(s)));
      Commute(Pow2(s), Div(ratio, Pow2(s)) + 1);
    } else {
      var t := 127 - msb;
      ShiftsAreProducts(ratio, t, 256);
      Pow2Add(msb, t);
      Pow2Add(msb + 1, t);
      MulMono(Pow2(msb), ratio, Pow2(t));
      MulStrict(ratio, Pow2(msb + 1), Pow2(t));
      MulNonNegative(ratio, Pow2(t));
      Pow2StrictlyMonotone(128, 256);
      DivMod(ratio * Pow2(t), Pow2(256));
    }
  }

  /** Scaling the bounds back from the normalised number to the ratio. */
  lemma RatioBound(ratio: nat, msb: nat, r: nat, bits: nat)
    requires msb < 256
    requires Squared(r, 14) >= Pow2(127 * Pow2(14) + bits) && Squared(r + 1, 14) < Pow2(127 * Pow2(14) + bits + 2)
    requires msb >= 128 ==> Pow2(msb - 127) * r <= ratio <= Pow2(msb - 127) * (r + 1)
    requires msb < 128 ==> r == Pow2(127 - msb) * ratio
    ensures msb * Pow2(14) + bits >= 0
    ensures Pow2(msb * Pow2(14) + bits) <= Squared(ratio, 14) < Pow2(msb * Pow2(14) + bits + 2)
  {
    hide *;
    var p := Pow2(14);
    MulNonNegative(msb, p);
    if msb >= 128 {
      var s := msb - 127;
      MulNonNegative(s, p);
      SquaredScaled(r, s, 14);
      SquaredScaled(r + 1, s, 14);
      SquaredMono(Pow2(s) * r, ratio, 14);
      SquaredMono(ratio, Pow2(s) * (r + 1), 14);
      MulMono(Pow2(127 * p + bits), Squared(r, 14), Pow2(s * p));
      MulStrict(Squared(r + 1, 14), Pow2(127 * p + bits + 2), Pow2(s * p));
      SplitExponent(s, p, msb);
      Pow2Add(s * p, 127 * p + bits);
      Pow2Add(s * p, 127 * p + bits + 2);
    } else {
      var t := 127 - msb;
      MulNonNegative(t, p);
      SquaredScaled(ratio, t, 14);
      SquaredMono(r, r + 1, 14);
      assert t * p + msb * p == 127 * p by {
        SumOfProducts(t, msb, p);
      }
      Pow2Add(t * p, msb * p + bits);
      Pow2Add(t * p, msb * p + bits + 2);
      Commute(Pow2(t * p), Pow2(msb * p + bits));
      Commute(Pow2(t * p), Pow2(msb * p + bits + 2));
      Commute(Pow2(t * p), Squared(ratio, 14));
      MulCancelLe(Pow2(msb * p + bits), Squared(ratio, 14), Pow2(t * p));
      MulCancel(Squared(ratio, 14), Pow2(msb * p + bits + 2), Pow2(t * p));
    }
  }

  lemma SplitExponent(s: int, p: int, m: int)
    requires m == s + 127
    ensures s * p + 127 * p == m * p
  {
  }

  lemma SumOfProducts(a: int, b: int, p: int)
    ensures a * p + b * p == (a + b) * p
  {
  }

  /** The logarithm of a Q128 ratio in units of 2^-14, from the 128-bit word the source computes. */
  function Units(log2: nat): int {
    FloorDiv(AsI128(log2), Pow2(50)) + 128 * Pow2(14)
  }

  /**
    The logarithm part of `get_tick_at_sqrt_price`, for a Q128 ratio: with L the
    signed result in units of 2^-14 above the integer part -128, it never
    exceeds the true logarithm and is short of it by less than two units:
    2^L <= ratio^(2^14) < 2^(L + 2).
  */
  method Log2(ratio: U256) returns (log2: nat)
    requires ratio > 0
    ensures AsI128(log2) == (Units(log2) - 128 * Pow2(14)) * Pow2(50)
    ensures Units(log2) >= 0
    ensures Pow2(Units(log2)) <= Power(ratio, Pow2(14)) < Pow2(Units(log2) + 2)
  {
    hide *;
    Widths();
    MsbIs(ratio);
    var msb := 255 - LeadingZeros(ratio, 256);
    Normalised(ratio, msb);
    OffsetFits();
    IntegerPartFits(msb);
    var r := if msb >= 128 then Shr(ratio, msb - 127) else Shl(ratio, 127 - msb, 256);
    log2 := RefineLog2(r, IntegerPart(msb));
    ghost var bits := Fraction(log2);
    SignedLog(msb, bits);
    RatioBound(ratio, msb, r, bits);
    SquaredIsPower(ratio, 14);
    UnitsAre(log2, msb, bits);
  }

  lemma UnitsAre(log2: nat, msb: nat, bits: nat)
    requires AsI128(log2) == (msb - 128) * Pow2(64) + bits * Pow2(50)
    ensures Units(log2) == msb * Pow2(14) + bits
    ensures AsI128(log2) == (Units(log2) - 128 * Pow2(14)) * Pow2(50)
  {
    hide Pow2, AsI128;
    Pow2Add(14, 50);
    UnitsIdentity(msb - 128, bits, Pow2(14), Pow2(50));
    SumOfProducts(msb - 128, 128, Pow2(14));
    Commute(Pow2(50), (msb - 128) * Pow2(14) + bits);
    DivModUniqueInt(AsI128(log2), Pow2(50), (msb - 128) * Pow2(14) + bits, 0);
  }

  lemma UnitsIdentity(m: int, bits: int, p: int, q: int)
    ensures m * (p * q) + bits * q == (m * p + bits) * q
  {
  }

  lemma MsbIs(ratio: nat)
    requires 0 < ratio < W256
    ensures var msb := 255 - LeadingZeros(ratio, 256);
            0 <= msb < 256 && Pow2(msb) <= ratio < Pow2(msb + 1)
  {
    hide Pow2, BitLen;
    Widths();
    BitLenBounds(ratio);
    BitLenAtMost(ratio, 256);
  }

  lemma IntegerPartFits(msb: nat)
    requires msb < 256
    ensures IntegerPart(msb) < Pow2(64)
  {
    OffsetFits();
  }
}
