/**
  Amount deltas and next prices, as in src/core/math/sqrt_price.rs.

  Every fixed-width product, shift and sum is written with its truncation; the
  lemmas show that none is lost and that each path computes the quotient of
  the unbounded formula, rounded in the pool's favour.
*/
module SqrtPriceMath {
  import opened Arith
  import opened Bits
  import opened Words
  import opened Wrappers
  import opened FullMath

  const MIN_SQRT_PRICE: nat := 4295128739
  const MAX_SQRT_PRICE: nat := 1461446703485210103287273052203988822378723970342

  /** A Q64.96 square-root price inside the protocol bounds. */
  type Price = p: int | MIN_SQRT_PRICE <= p <= MAX_SQRT_PRICE witness MIN_SQRT_PRICE

  predicate IsPrice(x: int) {
    MIN_SQRT_PRICE <= x <= MAX_SQRT_PRICE
  }

  /** `SqrtPriceX96::from_u256`. */
  function IntoPrice(x: nat): Result<Price> {
    if BitLen(x) > 160 then Err(InvalidSqrtPrice)
    else if IsPrice(x) then Ok(x) else Err(InvalidSqrtPrice)
  }

  lemma PriceBounds(p: Price)
    ensures 0 < W32 <= p < W160 && W32 * Pow2(128) == W160
  {
    Pow2Of32();
    Pow2Add(32, 128);
    MaxPriceBelow();
  }

  lemma MaxPriceBelow()
    ensures MAX_SQRT_PRICE < W160
  {
    Pow2Of32();
    assert Pow2(64) == W32 * W32 by { Pow2Add(32, 32); }
    assert Pow2(96) == 0x1_0000_0000_0000_0000 * W32 by { Pow2Add(64, 32); }
    assert Pow2(128) == 0x1_0000_0000_0000_0000_0000_0000 * W32 by { Pow2Add(96, 32); }
    assert W160 == 0x1_0000_0000_0000_0000_0000_0000_0000_0000 * W32 by { Pow2Add(128, 32); }
  }

  // ----------------------------------------------------------- references

  function RoundDiv(n: nat, d: nat, up: bool): nat
    requires d > 0
  {
    if up then CeilDiv(n, d) else Div(n, d)
  }

  /** |a - b|, the width of a price range. */
  function Width(a: nat, b: nat): nat {
    if a <= b then b - a else a - b
  }

  /** liquidity * 2^96 * |a - b| / (a * b), rounded as asked. */
  function Amount0(a: Price, b: Price, liquidity: nat, up: bool): nat {
    PriceProductPositive(a, b);
    RoundDiv(liquidity * Width(a, b) * Q96, a * b, up)
  }

  /** liquidity * |a - b| / 2^96, rounded as asked. */
  function Amount1(a: Price, b: Price, liquidity: nat, up: bool): nat {
    RoundDiv(liquidity * Width(a, b), Pow2(96), up)
  }

  lemma PriceProductPositive(a: Price, b: Price)
    ensures a * b > 0
  {
    MulStrict(0, a, b);
  }

  // ----------------------------------------------------------- amount deltas

  /** `get_amount0_delta_with_liquidity_delta`: inside 384-bit words. */
  function Amount0FromProduct(a: Price, b: Price, product: nat, up: bool): Result<nat> {
    WideProductExact(a, b);
    var numerator := Shl(product, 96, 384);
    var denominator := Mod(a * b, Pow2(384));
    var result := RoundDiv(numerator, denominator, up);
    if BitLen(result) > 256 then Err(Overflow) else Ok(result)
  }

  /** `get_amount0_delta`: the amount and the shared product liquidity * (b - a). */
  function GetAmount0Delta(a: Price, b: Price, liquidity: U128, up: bool): Result<(nat, nat)> {
    var diff := Width(a, b);
    if diff == 0 then Ok((0, 0))
    else
      var product := liquidity * diff;
      var amount :- Amount0FromProduct(a, b, product, up);
      Ok((amount, product))
  }

  /** `get_amount1_delta_with_liquidity_delta`. */
  function Amount1FromProduct(product: nat, up: bool): nat {
    var quotient := Shr(product, 96);
    if up && And(product, LowMask(96)) != 0 then quotient + 1 else quotient
  }

  /** `get_amount1_delta`. */
  function GetAmount1Delta(a: Price, b: Price, liquidity: U128, up: bool): (nat, nat) {
    var diff := Width(a, b);
    if diff == 0 then (0, 0)
    else
      var product := liquidity * diff;
      (Amount1FromProduct(product, up), product)
  }

  lemma WideProductExact(a: Price, b: Price)
    ensures a * b > 0 && Pow2(384) > 0 && Mod(a * b, Pow2(384)) == a * b
  {
    hide *;
    PriceProductPositive(a, b);
    PriceBounds(a);
    PriceBounds(b);
    Widths();
    Pow2Add(160, 160);
    Pow2Monotone(320, 384);
    MulStrict2(a, W160, b, W160);
    DivMod(a * b, Pow2(384));
  }

  /** liquidity * width fits in 288 bits, and shifted by 96 in 384 bits. */
  lemma ShiftedProductExact(liquidity: U128, diff: nat, product: nat)
    requires diff < W160 && product == liquidity * diff
    ensures Shl(product, 96, 384) == product * Q96
    ensures product < Pow2(288)
  {
    hide *;
    Widths();
    ProductBelow(liquidity, diff);
    ShlExact(product, 96, 288, 384);
  }

  lemma ProductBelow(liquidity: U128, diff: nat)
    requires diff < W160
    ensures liquidity * diff < Pow2(288)
  {
    hide *;
    Widths();
    MulStrict2(liquidity, W128, diff, W160);
    Pow2Add(128, 160);
  }

  /** A left shift that has room loses nothing. */
  lemma ShlExact(x: nat, k: nat, bits: nat, n: nat)
    requires x < Pow2(bits) && bits + k <= n
    ensures Shl(x, k, n) == x * Pow2(k) < Pow2(n)
  {
    hide *;
    MulStrict(x, Pow2(bits), Pow2(k));
    Pow2Add(bits, k);
    Pow2Monotone(bits + k, n);
    ShiftsAreProducts(x, k, n);
    DivMod(x * Pow2(k), Pow2(n));
  }

  lemma WidthBelow(a: Price, b: Price)
    ensures Width(a, b) < W160
    ensures Width(a, b) <= Max(a, b) - 1
  {
    PriceBounds(a);
    PriceBounds(b);
  }

  /** The token0 amount of a range is below liquidity * 2^96 / lower price + 1, hence below 2^192. */
  lemma Amount0Below(a: Price, b: Price, liquidity: U128, up: bool)
    ensures Amount0(a, b, liquidity, up) <= Pow2(192)
  {
    hide *;
    Widths();
    PriceProductPositive(a, b);
    PriceBounds(a);
    PriceBounds(b);
    WidthBelow(a, b);
    Pow2Add(128, 96);
    Pow2Add(192, 32);
    var lo, hi := Min(a, b), Max(a, b);
    MinMax(a, b);
    Amount0Chain(liquidity, Width(a, b), lo, hi, W128, Q96, W32, Pow2(192));
    Amount0Def(a, b, liquidity, up);
    RoundDivAtMost(liquidity * Width(a, b) * Q96, a * b, Pow2(192), up);
  }

  lemma MinMax(a: int, b: int)
    ensures Min(a, b) * Max(a, b) == a * b
    ensures Min(a, b) == a || Min(a, b) == b
    ensures Max(a, b) == a || Max(a, b) == b
  {
  }

  lemma Amount0Def(a: Price, b: Price, liquidity: nat, up: bool)
    ensures a * b > 0 && Amount0(a, b, liquidity, up) == RoundDiv(liquidity * Width(a, b) * Q96, a * b, up)
  {
    PriceProductPositive(a, b);
  }

  lemma Amount0Chain(l: nat, width: nat, lo: nat, hi: nat, w: nat, q: nat, m: nat, bound: nat)
    requires l < w && width <= hi && m <= lo && w * q == bound * m
    ensures l * width * q <= bound * (lo * hi)
  {
    MulMono2(l, w, width, hi);
    MulMono(l * width, w * hi, q);
    assert (w * hi) * q == (w * q) * hi;
    MulMono(m, lo, bound);
    MulMono(bound * m, bound * lo, hi);
    assert (bound * lo) * hi == bound * (lo * hi);
  }

  /** A quotient is at most q, rounded either way, when n <= q*d. */
  lemma RoundDivAtMost(n: nat, d: nat, q: nat, up: bool)
    requires d > 0 && n <= q * d
    ensures RoundDiv(n, d, up) <= q
  {
    CeilAtMost(n, d, q);
    CeilBounds(n, d);
  }

  lemma ZeroAmounts(d: nat, up: bool)
    requires d > 0
    ensures RoundDiv(0, d, up) == 0
  {
    DivMod(0, d);
  }

  /** `get_amount0_delta` computes the reference and never overflows. */
  lemma GetAmount0Exact(a: Price, b: Price, liquidity: U128, up: bool)
    ensures GetAmount0Delta(a, b, liquidity, up)
         == Ok((Amount0(a, b, liquidity, up), liquidity * Width(a, b)))
    ensures Amount0FromProduct(a, b, liquidity * Width(a, b), up) == Ok(Amount0(a, b, liquidity, up))
    ensures Amount0(a, b, liquidity, up) < W256
  {
    hide Pow2, Shl, Mod, Div, CeilDiv, RoundDiv, BitLen;
    var diff := Width(a, b);
    Widths();
    WidthBelow(a, b);
    WideProductExact(a, b);
    ShiftedProductExact(liquidity, diff, liquidity * diff);
    Amount0Below(a, b, liquidity, up);
    Pow2StrictlyMonotone(192, 256);
    BitLenAtMost(Amount0(a, b, liquidity, up), 256);
    if diff == 0 {
      ZeroAmounts(a * b, up);
    }
  }

  /** The shift and mask of `get_amount1_delta` are the division by 2^96. */
  lemma Amount1FromProductExact(product: nat, up: bool)
    ensures Amount1FromProduct(product, up) == RoundDiv(product, Pow2(96), up)
  {
    AndLowMask(product, 96);
  }

  lemma GetAmount1Exact(a: Price, b: Price, liquidity: U128, up: bool)
    ensures GetAmount1Delta(a, b, liquidity, up)
         == (Amount1(a, b, liquidity, up), liquidity * Width(a, b))
    ensures Amount1FromProduct(liquidity * Width(a, b), up) == Amount1(a, b, liquidity, up)
    ensures Amount1(a, b, liquidity, up) <= Pow2(192)
    ensures Amount1(a, b, liquidity, up) < W256
  {
    hide Pow2, Shr, And, Div, Mod, CeilDiv, RoundDiv;
    var diff := Width(a, b);
    Widths();
    Amount1FromProductExact(liquidity * diff, up);
    if diff == 0 {
      ZeroAmounts(Pow2(96), up);
    }
    WidthBelow(a, b);
    ShiftedProductExact(liquidity, diff, liquidity * diff);
    Pow2Add(192, 96);
    Pow2StrictlyMonotone(192, 256);
    RoundDivAtMost(liquidity * diff, Pow2(96), Pow2(192), up);
  }

  // ------------------------------------------------------- token0 next price

  /** `liquidity_sqrt_q96_div_rounding_up`: ceil(liquidity * price * 2^96 / denominator). */
  function LiquidityPriceDivUp(liquidity: U128, p: Price, denominator: nat): Result<nat>
    requires denominator > 0
  {
    var quotient := CeilDiv(Shl(liquidity * p, 96, 384), denominator);
    if BitLen(quotient) > 256 then Err(PriceOverflow) else Ok(quotient)
  }

  function DirectNext(liquidity: U128, p: Price, denominator: nat): Result<Price>
    requires denominator > 0
  {
    var result :- LiquidityPriceDivUp(liquidity, p, denominator);
    IntoPrice(result)
  }

  /** `amount0_add_overflow_fallback`. */
  function AddFallback(numerator: nat, p: Price, amount: U256): Result<Price>
    requires amount > 0
  {
    var denominator := Div(numerator, p) + amount;
    if denominator >= W256 then Err(PriceOverflow)
    else IntoPrice(CeilDiv(numerator, denominator))
  }

  /** Adding token0: the price moves down. Three paths by operand width. */
  function NextFromAmount0Add(p: Price, liquidity: U128, amount: U256): Result<Price>
    requires liquidity > 0 && amount > 0
  {
    var numerator := Shl(liquidity, 96, 256);
    var bits := BitLen(amount) + BitLen(p);
    var product := Mod(amount * p, W256);
    if bits <= 255 then
      FastAddExact(p, liquidity, amount);
      DirectNext(liquidity, p, Mod(numerator + product, W256))
    else if bits <= 256 then
      NumeratorPositive(liquidity);
      if numerator + product < W256 then DirectNext(liquidity, p, numerator + product)
      else AddFallback(numerator, p, amount)
    else
      NumeratorPositive(liquidity);
      if amount * p < W256 && numerator + product < W256 then
        DirectNext(liquidity, p, numerator + product)
      else AddFallback(numerator, p, amount)
  }

  /** Removing token0: the price moves up. */
  function NextFromAmount0Sub(p: Price, liquidity: U128, amount: U256): Result<Price> {
    var numerator := Shl(liquidity, 96, 256);
    var bits := BitLen(amount) + BitLen(p);
    var product := Mod(amount * p, W256);
    if bits > 256 && amount * p >= W256 then Err(InsufficientToken0Reserves)
    else if numerator <= product then Err(InsufficientToken0Reserves)
    else DirectNext(liquidity, p, numerator - product)
  }

  /** liquidity << 96 fits in 224 bits. */
  lemma NumeratorPositive(liquidity: U128)
    ensures Shl(liquidity, 96, 256) == liquidity * Q96 < Pow2(224)
    ensures liquidity > 0 ==> Shl(liquidity, 96, 256) > 0
  {
    hide *;
    Widths();
    ShlExact(liquidity, 96, 128, 256);
    Pow2Add(128, 96);
    MulStrict(liquidity, W128, Q96);
    if liquidity > 0 {
      MulStrict(0, liquidity, Q96);
    }
  }

  /** A product of words whose bit lengths add up to at most n is below 2^n. */
  lemma ProductBits(a: nat, b: nat, n: nat)
    requires BitLen(a) + BitLen(b) <= n
    ensures a * b < Pow2(n)
  {
    hide *;
    BitLenBounds(a);
    BitLenBounds(b);
    MulStrict2(a, Pow2(BitLen(a)), b, Pow2(BitLen(b)));
    Pow2Add(BitLen(a), BitLen(b));
    Pow2Monotone(BitLen(a) + BitLen(b), n);
  }

  /** The unchecked product and sum of the fast path wrap neither. */
  lemma FastAddExact(p: Price, liquidity: U128, amount: U256)
    requires liquidity > 0 && BitLen(amount) + BitLen(p) <= 255
    ensures var sum := Shl(liquidity, 96, 256) + Mod(amount * p, W256);
            Mod(sum, W256) == sum == liquidity * Q96 + amount * p && 0 < sum < W256
  {
    hide *;
    Widths();
    NumeratorPositive(liquidity);
    ProductBits(amount, p, 255);
    Pow2StrictlyMonotone(224, 255);
    TwiceHalf();
    DivMod(amount * p, W256);
    DivMod(Shl(liquidity, 96, 256) + amount * p, W256);
  }

  lemma TwiceHalf()
    ensures W256 == 2 * W255
  {
  }

  /** ceil(L * 2^96 * p / (L * 2^96 + amount * p)) over unbounded integers. */
  function ExactNext0Add(p: Price, liquidity: nat, amount: nat): nat
    requires liquidity > 0
  {
    AddDenominatorPositive(p, liquidity, amount);
    CeilDiv(liquidity * Q96 * p, liquidity * Q96 + amount * p)
  }

  lemma AddDenominatorPositive(p: Price, liquidity: nat, amount: nat)
    requires liquidity > 0
    ensures liquidity * Q96 > 0 && amount * p >= 0 && liquidity * Q96 * p > 0
  {
    MulStrict(0, liquidity, Q96);
    MulStrict(0, liquidity * Q96, p);
    MulNonNegative(amount, p);
  }

  /** The wide quotient is the exact one, and is a word when it is at most a price. */
  lemma DirectNextExact(liquidity: U128, p: Price, denominator: nat)
    requires denominator > 0
    ensures liquidity * Q96 >= 0 && liquidity * Q96 * p >= 0
    ensures var q := CeilDiv(liquidity * Q96 * p, denominator);
            DirectNext(liquidity, p, denominator)
            == if q >= W256 then Err(PriceOverflow) else IntoPrice(q)
  {
    hide Pow2, Shl, CeilDiv, BitLen, IntoPrice;
    Widths();
    PriceBounds(p);
    MulNonNegative(liquidity, Q96);
    MulNonNegative(liquidity * Q96, p);
    ShiftedProductExact(liquidity, p, liquidity * p);
    assert liquidity * p * Q96 == liquidity * Q96 * p;
    BitLenAtMost(CeilDiv(liquidity * Q96 * p, denominator), 256);
  }

  /** `from_u256` keeps exactly the values inside the protocol bounds. */
  lemma IntoPriceExact(x: nat)
    ensures IntoPrice(x) == if IsPrice(x) then Ok(x) else Err(InvalidSqrtPrice)
  {
    MaxPriceBelow();
    BitLenAtMost(x, 160);
  }

  /**
    Adding token0.  When L*2^96 + amount*p fits in a word, every path gives the
    exact quotient; otherwise the fallback is never below it.  An Ok value is
    never above the start price.
  */
  lemma NextFromAmount0AddExact(p: Price, liquidity: U128, amount: U256)
    requires liquidity > 0 && amount > 0
    ensures var exact := ExactNext0Add(p, liquidity, amount);
            var fits := liquidity * Q96 + amount * p < W256;
            var r := NextFromAmount0Add(p, liquidity, amount);
            && exact <= p
            && (fits ==> r == IntoPrice(exact))
            && (!fits ==> r == AddFallback(liquidity * Q96, p, amount))
            && (r.Ok? ==> exact <= r.value <= p)
  {
    hide Pow2, Shl, CeilDiv, BitLen, IntoPrice, DirectNext, AddFallback, Div, Mod;
    var numerator := Shl(liquidity, 96, 256);
    var product := amount * p;
    NumeratorPositive(liquidity);
    AddDenominatorPositive(p, liquidity, amount);
    NextAtMostStart(p, liquidity * Q96, amount);
    PriceBounds(p);
    Widths();
    Pow2StrictlyMonotone(160, 256);
    DivMod(product, W256);
    if liquidity * Q96 + product < W256 {
      DirectNextExact(liquidity, p, numerator + product);
      IntoPriceExact(ExactNext0Add(p, liquidity, amount));
      if BitLen(amount) + BitLen(p) <= 255 {
        FastAddExact(p, liquidity, amount);
      }
    } else {
      FallbackBounds(p, liquidity * Q96, amount);
      if BitLen(amount) + BitLen(p) <= 255 {
        FastAddExact(p, liquidity, amount);
      } else if BitLen(amount) + BitLen(p) <= 256 {
        ProductBits(amount, p, 256);
      }
    }
  }

  lemma NextAtMostStart(p: Price, n: nat, amount: nat)
    requires n > 0
    ensures n + amount * p > 0 && n * p >= 0
    ensures CeilDiv(n * p, n + amount * p) <= p
  {
    hide *;
    MulNonNegative(amount, p);
    MulNonNegative(n, p);
    MulNonNegative(p, amount * p);
    assert p * (n + amount * p) == n * p + p * (amount * p);
    CeilAtMost(n * p, n + amount * p, p);
  }

  /** The fallback lies between the exact quotient and the start price. */
  lemma FallbackBounds(p: Price, n: nat, amount: U256)
    requires n > 0 && amount > 0
    ensures n + amount * p > 0 && n * p >= 0
    ensures var r := AddFallback(n, p, amount);
            && (r.Ok? <==> Div(n, p) + amount < W256 && IsPrice(CeilDiv(n, Div(n, p) + amount)))
            && (r.Ok? ==> r.value == CeilDiv(n, Div(n, p) + amount))
    ensures CeilDiv(n * p, n + amount * p) <= CeilDiv(n, Div(n, p) + amount) <= p
  {
    hide CeilDiv, Div, BitLen, IntoPrice;
    MulNonNegative(amount, p);
    MulNonNegative(n, p);
    var base := Div(n, p);
    var v := CeilDiv(n, base + amount);
    IntoPriceExact(v);
    FloorBounds(n, p);
    CeilBounds(n, base + amount);
    FallbackBelowStart(n, p, base, amount);
    CeilAtMost(n, base + amount, p);
    FallbackAboveExact(n, p, base, amount, v);
    CeilAtMost(n * p, n + amount * p, v);
  }

  lemma FallbackBelowStart(n: int, p: int, base: int, amount: int)
    requires p > 0 && amount > 0 && n < (base + 1) * p
    ensures n <= p * (base + amount)
  {
    MulMono(base + 1, base + amount, p);
    assert (base + amount) * p == p * (base + amount);
  }

  lemma FallbackAboveExact(n: int, p: int, base: int, amount: int, v: int)
    requires p > 0 && amount > 0 && base >= 0 && base * p <= n && n <= v * (base + amount) && 0 <= n
    ensures n * p <= v * (n + amount * p)
  {
    if v < 0 {
      MulMono(v, 0, base + amount);
    }
    MulMono(n, v * (base + amount), p);
    assert (v * (base + amount)) * p == v * (base * p) + v * (amount * p);
    MulMono(base * p, n, v);
    assert v * (n + amount * p) == v * n + v * (amount * p);
  }

  /** ceil(L * 2^96 * p / (L * 2^96 - amount * p)) over unbounded integers. */
  function ExactNext0Sub(p: Price, liquidity: nat, amount: nat): nat
    requires amount * p < liquidity * Q96
  {
    MulNonNegative(liquidity * Q96, p);
    CeilDiv(liquidity * Q96 * p, liquidity * Q96 - amount * p)
  }

  /** Removing token0: every path gives the exact quotient or reports missing reserves. */
  lemma NextFromAmount0SubExact(p: Price, liquidity: U128, amount: U256)
    ensures NextFromAmount0Sub(p, liquidity, amount)
         == if amount * p >= liquidity * Q96 then Err(InsufficientToken0Reserves)
            else if ExactNext0Sub(p, liquidity, amount) >= W256 then Err(PriceOverflow)
            else IntoPrice(ExactNext0Sub(p, liquidity, amount))
  {
    hide Pow2, Shl, CeilDiv, BitLen, IntoPrice, DirectNext, Div, Mod;
    Widths();
    NumeratorPositive(liquidity);
    Pow2StrictlyMonotone(224, 256);
    MulNonNegative(amount, p);
    DivMod(amount * p, W256);
    if amount * p < liquidity * Q96 {
      DirectNextExact(liquidity, p, liquidity * Q96 - amount * p);
    } else if BitLen(amount) + BitLen(p) <= 256 {
      ProductBits(amount, p, 256);
    }
  }

  // ------------------------------------------------------- token1 next price

  /** `amount1_quotient`: amount * 2^96 / liquidity, widened only for large amounts. */
  function Amount1Quotient(amount: U256, liquidity: U128, up: bool, overflow: Error): Result<nat>
    requires liquidity > 0
  {
    if BitLen(amount) <= 160 then Ok(RoundDiv(Shl(amount, 96, 256), liquidity, up))
    else
      var quotient := RoundDiv(Shl(amount, 96, 352), liquidity, up);
      if BitLen(quotient) > 160 then Err(overflow) else Ok(quotient)
  }

  /** Adding token1: the price moves up. */
  function NextFromAmount1Add(p: Price, liquidity: U128, amount: U256): Result<Price>
    requires liquidity > 0
  {
    var quotient :- Amount1Quotient(amount, liquidity, false, PriceOverflow);
    if p + quotient >= W256 then Err(PriceOverflow) else IntoPrice(p + quotient)
  }

  /** Removing token1: the price moves down. */
  function NextFromAmount1Sub(p: Price, liquidity: U128, amount: U256): Result<Price>
    requires liquidity > 0
  {
    var quotient :- Amount1Quotient(amount, liquidity, true, InsufficientToken1Reserves);
    if p <= quotient then Err(InsufficientToken1Reserves) else IntoPrice(p - quotient)
  }

  /** Neither width loses bits; exactly the wide path refuses quotients beyond every price. */
  lemma Amount1QuotientExact(amount: U256, liquidity: U128, up: bool, overflow: Error)
    requires liquidity > 0
    ensures amount * Q96 >= 0
    ensures var q := RoundDiv(amount * Q96, liquidity, up);
            var r := Amount1Quotient(amount, liquidity, up, overflow);
            r == if amount >= W160 && q >= W160 then Err(overflow) else Ok(q)
  {
    hide Pow2, Shl, RoundDiv, BitLen;
    Widths();
    MulNonNegative(amount, Q96);
    BitLenAtMost(amount, 160);
    ShlExact(amount, 96, 256, 352);
    BitLenAtMost(RoundDiv(amount * Q96, liquidity, up), 160);
    if BitLen(amount) <= 160 {
      ShlExact(amount, 96, 160, 256);
    }
  }

  /** Token1 in: exactly p + floor(amount * 2^96 / L) whenever that is a price. */
  lemma NextFromAmount1AddExact(p: Price, liquidity: U128, amount: U256)
    requires liquidity > 0
    ensures amount * Q96 >= 0
    ensures var next := p + Div(amount * Q96, liquidity);
            var r := NextFromAmount1Add(p, liquidity, amount);
            && (r.Ok? <==> IsPrice(next))
            && (r.Ok? ==> r.value == next)
  {
    hide Pow2, IntoPrice, Amount1Quotient, Div;
    MulNonNegative(amount, Q96);
    Amount1QuotientExact(amount, liquidity, false, PriceOverflow);
    var q := Div(amount * Q96, liquidity);
    assert RoundDiv(amount * Q96, liquidity, false) == q;
    MaxPriceBelow();
    Widths();
    Pow2StrictlyMonotone(160, 256);
    IntoPriceExact(p + q);
  }

  /** Token1 out: exactly p - ceil(amount * 2^96 / L) whenever that is a price. */
  lemma NextFromAmount1SubExact(p: Price, liquidity: U128, amount: U256)
    requires liquidity > 0
    ensures amount * Q96 >= 0
    ensures var next := p - CeilDiv(amount * Q96, liquidity);
            var r := NextFromAmount1Sub(p, liquidity, amount);
            && (r.Ok? <==> IsPrice(next))
            && (r.Ok? ==> r.value == next)
  {
    hide Pow2, IntoPrice, Amount1Quotient, CeilDiv;
    MulNonNegative(amount, Q96);
    Amount1QuotientExact(amount, liquidity, true, InsufficientToken1Reserves);
    var q := CeilDiv(amount * Q96, liquidity);
    assert RoundDiv(amount * Q96, liquidity, true) == q;
    MaxPriceBelow();
    if p > q {
      IntoPriceExact(p - q);
    }
  }

  /** `get_next_sqrt_price_from_input` and `get_next_sqrt_price_from_output`. */
  function NextFromInput(p: Price, liquidity: U128, amountIn: U256, zeroForOne: bool): Result<Price>
    requires liquidity > 0 && amountIn > 0
  {
    if zeroForOne then NextFromAmount0Add(p, liquidity, amountIn)
    else NextFromAmount1Add(p, liquidity, amountIn)
  }

  function NextFromOutput(p: Price, liquidity: U128, amountOut: U256, zeroForOne: bool): Result<Price>
    requires liquidity > 0 && amountOut > 0
  {
    if zeroForOne then NextFromAmount1Sub(p, liquidity, amountOut)
    else NextFromAmount0Sub(p, liquidity, amountOut)
  }
}
