/**
  One swap step inside a range of constant liquidity, as in
  src/core/math/swap.rs.
*/
module SwapMath {
  import opened Arith
  import opened Bits
  import opened Words
  import opened Wrappers
  import opened FullMath
  import opened SmallRatio
  import opened SqrtPriceMath

  const MAX_FEE: nat := 1_000_000

  /** A resolved fee in pips; 1_000_000 is 100%. */
  type Fee = f: int | 0 <= f <= MAX_FEE

  type I256 = x: int | 0 - W255 <= x < W255

  datatype SwapStep = SwapStep(next: Price, amountIn: nat, amountOut: nat, fee: nat)

  /** `amount_less_fee_exact_in`: the input left after the fee is deducted. */
  function AmountLessFee(remaining: U256, fee: Fee): Result<nat> {
    Pow2Of32();
    if fee == 0 then Ok(remaining)
    else if fee == MAX_FEE then Ok(0)
    else MulDivU32Floor(remaining, MAX_FEE - fee, MAX_FEE)
  }

  /** `fee_on_exact_input`: the fee owed on top of a net input. */
  function FeeOnInput(amountIn: U256, fee: Fee): Result<nat> {
    Pow2Of32();
    if amountIn == 0 || fee == 0 then Ok(0)
    else if fee == MAX_FEE then Ok(amountIn)
    else MulDivU32Ceil(amountIn, fee, MAX_FEE - fee)
  }

  /** `get_sqrt_price_target`: the next tick price clamped by the caller's limit. */
  function PriceTarget(zeroForOne: bool, next: Price, limit: Price): Price {
    if zeroForOne then Max(next, limit) else Min(next, limit)
  }

  function ComputeExactIn(current: Price, target: Price, liquidity: U128, remaining: U256, fee: Fee,
                          zeroForOne: bool): Result<SwapStep>
    requires liquidity > 0 && remaining > 0
  {
    var lessFee :- AmountLessFee(remaining, fee);
    if lessFee == 0 then
      Ok(SwapStep(current, 0, 0, if current == target then 0 else remaining))
    else
      AmountsAreWords(current, target, liquidity);
      var (maxIn, product) :- if zeroForOne then GetAmount0Delta(target, current, liquidity, true)
                              else Ok(GetAmount1Delta(current, target, liquidity, true));
      if lessFee >= maxIn then
        var amountOut :- if zeroForOne then Ok(Amount1FromProduct(product, false))
                         else Amount0FromProduct(current, target, product, false);
        var feeAmount :- FeeOnInput(maxIn, fee);
        Ok(SwapStep(target, maxIn, amountOut, feeAmount))
      else
        LessFeeIsLess(remaining, fee);
        var next :- NextFromInput(current, liquidity, lessFee, zeroForOne);
        var (amountOut, _) :- if zeroForOne then Ok(GetAmount1Delta(next, current, liquidity, false))
                              else GetAmount0Delta(current, next, liquidity, false);
        Ok(SwapStep(next, lessFee, amountOut, remaining - lessFee))
  }

  function ComputeExactOut(current: Price, target: Price, liquidity: U128, remaining: U256, fee: Fee,
                           zeroForOne: bool): Result<SwapStep>
    requires liquidity > 0 && remaining > 0
  {
    AmountsAreWords(current, target, liquidity);
    var (maxOut, product) :- if zeroForOne then Ok(GetAmount1Delta(target, current, liquidity, false))
                             else GetAmount0Delta(current, target, liquidity, false);
    if remaining >= maxOut then
      var amountIn :- if zeroForOne then Amount0FromProduct(target, current, product, true)
                      else Ok(Amount1FromProduct(product, true));
      var feeAmount :- FeeOnInput(amountIn, fee);
      Ok(SwapStep(target, amountIn, maxOut, feeAmount))
    else
      var next :- NextFromOutput(current, liquidity, remaining, zeroForOne);
      AmountsAreWords(current, next, liquidity);
      var (amountIn, _) :- if zeroForOne then GetAmount0Delta(next, current, liquidity, true)
                           else Ok(GetAmount1Delta(current, next, liquidity, true));
      var feeAmount :- FeeOnInput(amountIn, fee);
      Ok(SwapStep(next, amountIn, remaining, feeAmount))
  }

  /** A step from `current` towards `target`; a negative amount is exact input. */
  function ComputeSwapStep(current: Price, target: Price, liquidity: U128, amount: I256, fee: Fee): Result<SwapStep>
    requires liquidity > 0
  {
    if amount == 0 then Ok(SwapStep(current, 0, 0, 0))
    else if amount > 0 && fee == MAX_FEE then Err(MaxFeeExactOut)
    else
      TwiceHalf();
      var zeroForOne := current >= target;
      if amount < 0 then ComputeExactIn(current, target, liquidity, Abs(amount), fee, zeroForOne)
      else ComputeExactOut(current, target, liquidity, amount, fee, zeroForOne)
  }

  /** What the amount functions return for a range, whichever way it is named. */
  ghost predicate RangeAmounts(a: Price, b: Price, liquidity: U128, up: bool) {
    && GetAmount0Delta(a, b, liquidity, up) == GetAmount0Delta(b, a, liquidity, up)
       == Ok((Amount0(a, b, liquidity, up), liquidity * Width(a, b)))
    && GetAmount1Delta(a, b, liquidity, up) == GetAmount1Delta(b, a, liquidity, up)
       == (Amount1(a, b, liquidity, up), liquidity * Width(a, b))
    && Amount0FromProduct(a, b, liquidity * Width(a, b), up)
       == Amount0FromProduct(b, a, liquidity * Width(a, b), up)
       == Ok(Amount0(a, b, liquidity, up))
    && Amount1FromProduct(liquidity * Width(a, b), up) == Amount1(a, b, liquidity, up)
    && Amount0(a, b, liquidity, up) <= Pow2(192)
    && Amount1(a, b, liquidity, up) <= Pow2(192)
  }

  lemma AmountsAreWords(a: Price, b: Price, liquidity: U128)
    ensures RangeAmounts(a, b, liquidity, false) && RangeAmounts(a, b, liquidity, true)
    ensures Pow2(192) < W256
  {
    Pow2StrictlyMonotone(192, 256);
    AmountsOfRange(a, b, liquidity, false);
    AmountsOfRange(a, b, liquidity, true);
  }

  lemma AmountsOfRange(a: Price, b: Price, liquidity: U128, up: bool)
    ensures RangeAmounts(a, b, liquidity, up)
  {
    hide GetAmount0Delta, GetAmount1Delta, Amount0FromProduct, Amount1FromProduct, Amount0, Amount1, Pow2, Width;
    GetAmount0Exact(a, b, liquidity, up);
    GetAmount0Exact(b, a, liquidity, up);
    GetAmount1Exact(a, b, liquidity, up);
    GetAmount1Exact(b, a, liquidity, up);
    Amount0Below(a, b, liquidity, up);
    AmountsSymmetric(a, b, liquidity, up);
  }

  lemma AmountsSymmetric(a: Price, b: Price, liquidity: U128, up: bool)
    ensures Amount0(a, b, liquidity, up) == Amount0(b, a, liquidity, up)
    ensures Amount1(a, b, liquidity, up) == Amount1(b, a, liquidity, up)
    ensures Width(a, b) == Width(b, a)
  {
    assert a * b == b * a;
  }

  // ------------------------------------------------------------------- fees

  /** The input after fee is floor(remaining * (M - fee) / M), and never fails. */
  lemma LessFeeExact(remaining: U256, fee: Fee)
    ensures remaining * (MAX_FEE - fee) >= 0
    ensures AmountLessFee(remaining, fee) == Ok(Div(remaining * (MAX_FEE - fee), MAX_FEE))
    ensures Div(remaining * (MAX_FEE - fee), MAX_FEE) <= remaining
  {
    hide Div, MulDivU32Floor;
    Pow2Of32();
    var c := MAX_FEE - fee;
    MulNonNegative(remaining, c);
    MulMono(c, MAX_FEE, remaining);
    DivModUnique(remaining * MAX_FEE, MAX_FEE, remaining, 0);
    FloorMono(remaining * c, remaining * MAX_FEE, MAX_FEE);
    if fee == MAX_FEE {
      DivMod(0, MAX_FEE);
    } else if fee > 0 {
      FloorExact(remaining, c, MAX_FEE);
    }
  }

  lemma LessFeeIsLess(remaining: U256, fee: Fee)
    ensures AmountLessFee(remaining, fee).Ok? && AmountLessFee(remaining, fee).value <= remaining
  {
    LessFeeExact(remaining, fee);
  }

  /** The fee on an input is ceil(input * fee / (M - fee)), with the width check; at 100% it is the whole input. */
  lemma FeeOnInputRounded(amountIn: U256, fee: Fee)
    ensures FeeOnInput(amountIn, fee)
         == if fee == MAX_FEE then Ok(amountIn) else CeilQuotient(amountIn, fee, MAX_FEE - fee)
  {
    hide Div, Mod, CeilDiv, MulDivU32Ceil, Pow2;
    Pow2Of32();
    if fee < MAX_FEE {
      if amountIn == 0 || fee == 0 {
        CeilOfZero(MAX_FEE - fee);
        Widths();
      } else {
        CeilExact(amountIn, fee, MAX_FEE - fee);
      }
    }
  }

  /** For the inputs a step can have the fee below 100% always fits. */
  lemma FeeOnInputExact(amountIn: U256, fee: Fee)
    requires fee < MAX_FEE && amountIn <= Pow2(192)
    ensures amountIn * fee >= 0
    ensures FeeOnInput(amountIn, fee) == Ok(CeilDiv(amountIn * fee, MAX_FEE - fee))
  {
    hide Div, Mod, CeilDiv, FeeOnInput, Pow2;
    Pow2Of32();
    var c := MAX_FEE - fee;
    MulNonNegative(amountIn, fee);
    FeeBelowWord(amountIn, fee);
    MulMono(1, c, amountIn * fee);
    CeilAtMost(amountIn * fee, c, amountIn * fee);
    FeeOnInputRounded(amountIn, fee);
  }

  lemma FeeBelowWord(amountIn: nat, fee: Fee)
    requires amountIn <= Pow2(192)
    ensures amountIn * fee < W256
  {
    hide *;
    Widths();
    Pow2Of32();
    Pow2Add(192, 32);
    Pow2StrictlyMonotone(224, 256);
    assert MAX_FEE == 1_000_000 by { MaxFee(); }
    MulMono2(amountIn, Pow2(192), fee, W32);
  }

  lemma MaxFee()
    ensures MAX_FEE == 1_000_000
  {
  }

  lemma CeilOfZero(d: nat)
    requires d > 0
    ensures CeilDiv(0, d) == 0
  {
    DivMod(0, d);
  }

  /** Reaching the target: input plus fee stay within what remained. */
  lemma FeeWithinRemaining(amountIn: nat, remaining: nat, fee: nat, m: nat)
    requires fee < m && amountIn * m <= remaining * (m - fee)
    ensures amountIn * fee >= 0 && amountIn + CeilDiv(amountIn * fee, m - fee) <= remaining
  {
    hide *;
    MulNonNegative(amountIn, fee);
    assert amountIn * m == amountIn * fee + amountIn * (m - fee);
    assert (remaining - amountIn) * (m - fee) == remaining * (m - fee) - amountIn * (m - fee);
    CeilAtMost(amountIn * fee, m - fee, remaining - amountIn);
  }

  /** fee*(M - f) >= in*f says that the fee is at least its share f/M of the whole input. */
  lemma FeeShare(amountIn: int, feeAmount: int, f: int, m: int)
    requires amountIn * f <= feeAmount * (m - f)
    ensures (amountIn + feeAmount) * f <= feeAmount * m
  {
    assert feeAmount * (m - f) == feeAmount * m - feeAmount * f;
    assert (amountIn + feeAmount) * f == amountIn * f + feeAmount * f;
  }

  // ------------------------------------------------------- price movements

  /**
    The exact token amounts of a price move, cross-multiplied: `amount` is at
    least (at most) the token0 or token1 amount that `liquidity` holds between
    two prices.
  */
  predicate CoversAmount0(amount: int, a: int, b: int, liquidity: int) {
    liquidity * Q96 * (b - a) <= amount * (a * b)
  }

  predicate WithinAmount0(amount: int, a: int, b: int, liquidity: int) {
    amount * (a * b) <= liquidity * Q96 * (b - a)
  }

  predicate CoversAmount1(amount: int, a: int, b: int, liquidity: int) {
    liquidity * (b - a) <= amount * Q96
  }

  predicate WithinAmount1(amount: int, a: int, b: int, liquidity: int) {
    amount * Q96 <= liquidity * (b - a)
  }

  /** The rounded-up amount is the least that covers a move, the rounded-down one the greatest within it. */
  lemma RoundedAmounts(lo: Price, hi: Price, liquidity: U128)
    requires lo <= hi
    ensures CoversAmount0(Amount0(lo, hi, liquidity, true), lo, hi, liquidity)
    ensures WithinAmount0(Amount0(lo, hi, liquidity, false), lo, hi, liquidity)
    ensures CoversAmount1(Amount1(lo, hi, liquidity, true), lo, hi, liquidity)
    ensures WithinAmount1(Amount1(lo, hi, liquidity, false), lo, hi, liquidity)
    ensures !CoversAmount0(Amount0(lo, hi, liquidity, true) - 1, lo, hi, liquidity)
    ensures !WithinAmount0(Amount0(lo, hi, liquidity, false) + 1, lo, hi, liquidity)
    ensures !CoversAmount1(Amount1(lo, hi, liquidity, true) - 1, lo, hi, liquidity)
    ensures !WithinAmount1(Amount1(lo, hi, liquidity, false) + 1, lo, hi, liquidity)
  {
    hide Pow2, Div, CeilDiv;
    Widths();
    PriceProductPositive(lo, hi);
    var n := liquidity * (hi - lo);
    MulNonNegative(liquidity, hi - lo);
    assert n * Q96 == liquidity * Q96 * (hi - lo);
    CeilBounds(n * Q96, lo * hi);
    FloorBounds(n * Q96, lo * hi);
    CeilBounds(n, Q96);
    FloorBounds(n, Q96);
  }

  /** An amount below the rounded-up maximum is below the exact one. */
  lemma BelowMaximum(lo: Price, hi: Price, liquidity: U128, amount: nat)
    requires lo <= hi
    ensures amount < Amount0(lo, hi, liquidity, true) ==> amount * (lo * hi) < liquidity * Q96 * (hi - lo)
    ensures amount < Amount1(lo, hi, liquidity, true) ==> amount * Q96 < liquidity * (hi - lo)
    ensures amount < Amount0(lo, hi, liquidity, false) ==> amount * (lo * hi) < liquidity * Q96 * (hi - lo)
    ensures amount < Amount1(lo, hi, liquidity, false) ==> amount * Q96 < liquidity * (hi - lo)
  {
    hide Pow2, Div, CeilDiv;
    Widths();
    PriceProductPositive(lo, hi);
    var n := liquidity * (hi - lo);
    MulNonNegative(liquidity, hi - lo);
    assert n * Q96 == liquidity * Q96 * (hi - lo);
    CeilAtMost(n * Q96, lo * hi, amount);
    CeilAtMost(n, Q96, amount);
    CeilBounds(n * Q96, lo * hi);
    CeilBounds(n, Q96);
  }

  /** Token0 in, stopping short of the target: the price stays strictly above it and the input covers the move. */
  lemma Amount0InPartial(current: Price, target: Price, liquidity: U128, amount: U256)
    requires liquidity > 0 && amount > 0 && target <= current
    requires amount <= Pow2(192)
    requires amount * (target * current) < liquidity * Q96 * (current - target)
    ensures var r := NextFromInput(current, liquidity, amount, true);
            r.Ok? && target < r.value <= current && CoversAmount0(amount, r.value, current, liquidity)
  {
    hide Pow2, AddFallback, CeilDiv, Div, IntoPrice, NextFromAmount0Add;
    var n := liquidity * Q96;
    AddDenominatorPositive(current, liquidity, amount);
    NextFromAmount0AddExact(current, liquidity, amount);
    var exact := ExactNext0Add(current, liquidity, amount);
    var denominator := n + amount * current;
    CeilBounds(n * current, denominator);
    TargetBelowNext(n, current, target, amount, exact, denominator);
    IntoPriceExact(exact);
    FallbackBounds(current, n, amount);
    FallbackDenominatorFits(current, liquidity, amount);
    var r := NextFromAmount0Add(current, liquidity, amount);
    assert r.Ok?;
    MulMono(exact, r.value, denominator);
    NextCoversInput(n, current, r.value, amount, denominator);
  }

  lemma FallbackDenominatorFits(p: Price, liquidity: U128, amount: nat)
    requires amount <= Pow2(192)
    ensures liquidity * Q96 >= 0 && Div(liquidity * Q96, p) + amount < W256
  {
    hide *;
    Widths();
    PriceBounds(p);
    NumeratorPositive(liquidity);
    Pow2Add(192, 32);
    MulNonNegative(liquidity, Q96);
    MulMono(W32, p, Pow2(192));
    FloorAtLeast(liquidity * Q96, p, Pow2(192));
    DoublePow2(192);
    Pow2StrictlyMonotone(193, 256);
  }

  lemma DoublePow2(n: nat)
    ensures Pow2(n + 1) == 2 * Pow2(n)
  {
  }

  lemma TargetBelowNext(n: int, p: int, t: int, amount: int, next: int, d: int)
    requires d == n + amount * p && d > 0 && amount * (t * p) < n * (p - t) && n * p <= next * d
    ensures t < next
  {
    assert t * d == t * n + amount * (t * p);
    assert n * (p - t) == n * p - t * n;
    MulCancel(t, next, d);
  }

  lemma NextCoversInput(n: int, p: int, v: int, amount: int, d: int)
    requires d == n + amount * p && n * p <= v * d
    ensures n * (p - v) <= amount * (v * p)
  {
    assert v * d == n * v + amount * (v * p);
    assert n * (p - v) == n * p - n * v;
  }

  /** Token1 in, stopping short. */
  lemma Amount1InPartial(current: Price, target: Price, liquidity: U128, amount: U256)
    requires liquidity > 0 && amount > 0 && current <= target
    requires amount * Q96 < liquidity * (target - current)
    ensures var r := NextFromInput(current, liquidity, amount, false);
            r.Ok? && current <= r.value <= target && CoversAmount1(amount, current, r.value, liquidity)
  {
    hide Pow2, Div, NextFromAmount1Add;
    NextFromAmount1AddExact(current, liquidity, amount);
    var q := Div(amount * Q96, liquidity);
    FloorBounds(amount * Q96, liquidity);
    MulCancel(q, target - current, liquidity);
    assert liquidity * q == q * liquidity;
  }

  /** Token1 out, stopping short. */
  lemma Amount1OutPartial(current: Price, target: Price, liquidity: U128, amount: U256)
    requires liquidity > 0 && amount > 0 && target <= current
    requires amount * Q96 < liquidity * (current - target)
    ensures var r := NextFromOutput(current, liquidity, amount, true);
            r.Ok? && target <= r.value <= current && WithinAmount1(amount, r.value, current, liquidity)
  {
    hide Pow2, CeilDiv, NextFromAmount1Sub;
    NextFromAmount1SubExact(current, liquidity, amount);
    var q := CeilDiv(amount * Q96, liquidity);
    CeilBounds(amount * Q96, liquidity);
    CeilAtMost(amount * Q96, liquidity, current - target);
    assert liquidity * (current - target) == (current - target) * liquidity;
    assert liquidity * q == q * liquidity;
  }

  /** Token0 out, stopping short: the reserves suffice and the price stays below the target. */
  lemma Amount0OutPartial(current: Price, target: Price, liquidity: U128, amount: U256)
    requires liquidity > 0 && amount > 0 && current <= target
    requires amount * (current * target) < liquidity * Q96 * (target - current)
    ensures var r := NextFromOutput(current, liquidity, amount, false);
            r.Ok? && current <= r.value <= target && WithinAmount0(amount, current, r.value, liquidity)
  {
    hide Pow2, CeilDiv, IntoPrice, NextFromAmount0Sub;
    var n := liquidity * Q96;
    AddDenominatorPositive(current, liquidity, amount);
    ReservesSuffice(n, current, target, amount);
    NextFromAmount0SubExact(current, liquidity, amount);
    var exact := ExactNext0Sub(current, liquidity, amount);
    var d := n - amount * current;
    CeilBounds(n * current, d);
    NextBelowTarget(n, current, target, amount, d);
    CeilAtMost(n * current, d, target);
    StartBelowNext(n, current, amount, exact, d);
    Widths();
    PriceBounds(target);
    Pow2StrictlyMonotone(160, 256);
    IntoPriceExact(exact);
    OutputWithin(n, current, exact, amount, d);
  }

  lemma ReservesSuffice(n: int, p: int, t: int, amount: int)
    requires amount * (p * t) < n * (t - p) && n > 0 && p > 0 && t > 0
    ensures amount * p < n
  {
    assert amount * (p * t) == (amount * p) * t;
    assert n * (t - p) == n * t - n * p;
    MulStrict(0, n, p);
    MulCancel(amount * p, n, t);
  }

  lemma NextBelowTarget(n: int, p: int, t: int, amount: int, d: int)
    requires d == n - amount * p && amount * (p * t) < n * (t - p)
    ensures n * p <= t * d
  {
    assert t * d == t * n - amount * (p * t);
    assert n * (t - p) == n * t - n * p;
  }

  lemma StartBelowNext(n: int, p: int, amount: int, v: int, d: int)
    requires d == n - amount * p && d > 0 && amount > 0 && p > 0 && n * p <= v * d
    ensures p <= v
  {
    MulStrict(0, amount, p);
    MulMono(d, n, p);
    MulCancelLe(p, v, d);
  }

  lemma OutputWithin(n: int, p: int, v: int, amount: int, d: int)
    requires d == n - amount * p && n * p <= v * d
    ensures amount * (p * v) <= n * (v - p)
  {
    assert v * d == n * v - amount * (p * v);
    assert n * (v - p) == n * v - n * p;
  }

  // --------------------------------------------------------- step soundness

  /**
    What a step promises.  Input covers and output stays within the exact
    amounts of the move actually made, so rounding favours the pool; a step
    that stops short of its target has used up the remaining amount.
  */
  ghost predicate StepSound(current: Price, target: Price, liquidity: nat, amount: int, fee: Fee, step: SwapStep) {
    && Min(current, target) <= step.next <= Max(current, target)
    && (current >= target ==>
          CoversAmount0(step.amountIn, step.next, current, liquidity)
          && WithinAmount1(step.amountOut, step.next, current, liquidity))
    && (current <= target ==>
          CoversAmount1(step.amountIn, current, step.next, liquidity)
          && WithinAmount0(step.amountOut, current, step.next, liquidity))
    && (amount < 0 ==> step.amountIn + step.fee <= -amount)
    && (amount > 0 ==> step.amountOut <= amount)
    && (step.next != target ==> Exhausts(amount, step))
    && step.amountIn * fee <= step.fee * (MAX_FEE - fee)
  }

  /** The step consumes, or delivers, everything that remained. */
  predicate Exhausts(amount: int, step: SwapStep) {
    if amount <= 0 then step.amountIn + step.fee == -amount
    else step.amountOut == amount
  }

  /** The rounded-up input and rounded-down output of a move, in the reference amounts. */
  ghost function MoveIn(zeroForOne: bool, a: Price, b: Price, liquidity: nat): nat {
    if zeroForOne then Amount0(a, b, liquidity, true) else Amount1(a, b, liquidity, true)
  }

  ghost function MoveOut(zeroForOne: bool, a: Price, b: Price, liquidity: nat): nat {
    if zeroForOne then Amount1(a, b, liquidity, false) else Amount0(a, b, liquidity, false)
  }

  /** floor(remaining * (M - fee) / M) and ceil(amountIn * fee / (M - fee)). */
  ghost function NetInput(remaining: nat, fee: Fee): nat {
    MulNonNegative(remaining, MAX_FEE - fee);
    Div(remaining * (MAX_FEE - fee), MAX_FEE)
  }

  ghost function FeeOnTop(amountIn: nat, fee: Fee): nat
    requires fee < MAX_FEE
  {
    MulNonNegative(amountIn, fee);
    CeilDiv(amountIn * fee, MAX_FEE - fee)
  }

  /** floor(L * 2^96 / p), the whole token0 behind a price. */
  ghost function Behind(p: Price, liquidity: nat): nat {
    MulNonNegative(liquidity, Q96);
    Div(liquidity * Q96, p)
  }

  /**
    Where a net input takes the price when it runs out: as far as it covers and
    not one unit further.  A token0 input too wide for the exact denominator is
    divided by the whole token0 behind the price instead, which stops no later.
  */
  ghost predicate FarthestCovered(p: Price, liquidity: U128, net: nat, zeroForOne: bool, next: Price) {
    if zeroForOne then
      && next <= p
      && CoversAmount0(net, next, p, liquidity)
      && (liquidity * Q96 + net * p < W256 ==> !CoversAmount0(net, next - 1, p, liquidity))
      && (liquidity * Q96 + net * p >= W256 ==>
            (next - 1) * (Behind(p, liquidity) + net) < liquidity * Q96 <= next * (Behind(p, liquidity) + net))
    else
      p <= next && CoversAmount1(net, p, next, liquidity) && !CoversAmount1(net, p, next + 1, liquidity)
  }

  /** Where a requested output takes the price: the nearest one that yields it. */
  ghost predicate NearestYielding(p: Price, liquidity: U128, amount: nat, zeroForOne: bool, next: Price) {
    if zeroForOne then
      next <= p && WithinAmount1(amount, next, p, liquidity) && !WithinAmount1(amount, next + 1, p, liquidity)
    else
      p <= next && WithinAmount0(amount, p, next, liquidity) && !WithinAmount0(amount, p, next - 1, liquidity)
  }

  /**
    The amounts an exact-input step must report, so that rounding takes no more
    than it has to.  The net input pays for the whole range, or is spent short
    of the target, or is nothing at all.
  */
  ghost predicate ExactInAmounts(current: Price, target: Price, liquidity: U128, remaining: U256, fee: Fee,
                                 step: SwapStep)
    requires liquidity > 0
  {
    var zeroForOne := current >= target;
    var net := NetInput(remaining, fee);
    && step.amountOut == MoveOut(zeroForOne, current, step.next, liquidity)
    && if net == 0 then
         step == SwapStep(current, 0, 0, if current == target then 0 else remaining)
       else if net >= MoveIn(zeroForOne, current, target, liquidity) then
         && fee < MAX_FEE
         && step.next == target
         && step.amountIn == MoveIn(zeroForOne, current, target, liquidity)
         && step.fee == FeeOnTop(step.amountIn, fee)
       else
         && net <= remaining
         && FarthestCovered(current, liquidity, net, zeroForOne, step.next)
         && step.amountIn == net
         && step.fee == remaining - net
  }

  /** Exact output delivers the whole range or exactly the request, for the least input that covers the move. */
  ghost predicate ExactOutAmounts(current: Price, target: Price, liquidity: U128, amount: U256, fee: Fee,
                                  step: SwapStep)
    requires liquidity > 0 && amount > 0
  {
    var zeroForOne := current >= target;
    && fee < MAX_FEE
    && step.amountIn == MoveIn(zeroForOne, current, step.next, liquidity)
    && step.fee == FeeOnTop(step.amountIn, fee)
    && if amount >= MoveOut(zeroForOne, current, target, liquidity) then
         step.next == target && step.amountOut == MoveOut(zeroForOne, current, target, liquidity)
       else
         NearestYielding(current, liquidity, amount, zeroForOne, step.next) && step.amountOut == amount
  }

  lemma NoMove(p: Price, liquidity: U128)
    ensures CoversAmount0(0, p, p, liquidity) && WithinAmount0(0, p, p, liquidity)
    ensures CoversAmount1(0, p, p, liquidity) && WithinAmount1(0, p, p, liquidity)
  {
    hide Pow2;
  }

  /** The whole range is swapped: exact input. */
  lemma ExactInReached(current: Price, target: Price, liquidity: U128, remaining: U256, fee: Fee, lessFee: nat)
    requires liquidity > 0 && remaining > 0
    requires AmountLessFee(remaining, fee) == Ok(lessFee) && lessFee > 0
    requires var zeroForOne := current >= target;
             lessFee >= (if zeroForOne then Amount0(target, current, liquidity, true)
                         else Amount1(current, target, liquidity, true))
    ensures var r := ComputeExactIn(current, target, liquidity, remaining, fee, current >= target);
            r.Ok? && r.value.next == target
            && StepSound(current, target, liquidity, 0 - remaining, fee, r.value)
  {
    hide Pow2, Div, CeilDiv, Amount0, Amount1, GetAmount0Delta, GetAmount1Delta, Amount0FromProduct,
         Amount1FromProduct, AmountLessFee, FeeOnInput, CoversAmount0, CoversAmount1, WithinAmount0, WithinAmount1;
    AmountsAreWords(current, target, liquidity);
    RoundedAmounts(Min(current, target), Max(current, target), liquidity);
    AmountsSymmetric(current, target, liquidity, true);
    AmountsSymmetric(current, target, liquidity, false);
    var amountIn := if current >= target then Amount0(target, current, liquidity, true)
                    else Amount1(current, target, liquidity, true);
    FullFeeLeavesNothing(remaining, fee);
    FeeOnInputExact(amountIn, fee);
    ReachedFee(amountIn, remaining, fee, lessFee);
    if current == target {
      NoAmounts(current, liquidity);
    }
  }

  lemma NoAmounts(p: Price, liquidity: U128)
    ensures forall up :: Amount0(p, p, liquidity, up) == 0
    ensures forall up :: Amount1(p, p, liquidity, up) == 0
    ensures CoversAmount0(0, p, p, liquidity) && WithinAmount0(0, p, p, liquidity)
    ensures CoversAmount1(0, p, p, liquidity) && WithinAmount1(0, p, p, liquidity)
  {
    hide Pow2, RoundDiv;
    PriceProductPositive(p, p);
    forall up: bool
      ensures Amount0(p, p, liquidity, up) == 0 && Amount1(p, p, liquidity, up) == 0
    {
      ZeroAmounts(p * p, up);
      ZeroAmounts(Pow2(96), up);
    }
  }

  lemma FullFeeLeavesNothing(remaining: U256, fee: Fee)
    ensures fee == MAX_FEE ==> AmountLessFee(remaining, fee) == Ok(0)
  {
  }

  lemma ReachedFee(amountIn: nat, remaining: U256, fee: Fee, lessFee: nat)
    requires fee < MAX_FEE && amountIn <= lessFee && AmountLessFee(remaining, fee) == Ok(lessFee)
    ensures amountIn * fee >= 0
    ensures var feeAmount := CeilDiv(amountIn * fee, MAX_FEE - fee);
            amountIn + feeAmount <= remaining && amountIn * fee <= feeAmount * (MAX_FEE - fee)
  {
    hide Div, CeilDiv, AmountLessFee;
    LessFeeExact(remaining, fee);
    MulNonNegative(amountIn, fee);
    FloorAtLeast(remaining * (MAX_FEE - fee), MAX_FEE, amountIn);
    FeeWithinRemaining(amountIn, remaining, fee, MAX_FEE);
    CeilBounds(amountIn * fee, MAX_FEE - fee);
  }

  lemma PartialFee(remaining: U256, fee: Fee, lessFee: nat)
    requires AmountLessFee(remaining, fee) == Ok(lessFee)
    ensures lessFee <= remaining && lessFee * fee <= (remaining - lessFee) * (MAX_FEE - fee)
  {
    hide Div, AmountLessFee;
    LessFeeExact(remaining, fee);
    var c := MAX_FEE - fee;
    FloorBounds(remaining * c, MAX_FEE);
    assert lessFee * MAX_FEE == lessFee * fee + lessFee * c;
    assert (remaining - lessFee) * c == remaining * c - lessFee * c;
  }

  /** The input runs out inside the range, or the fee absorbs all of it: exact input. */
  lemma ExactInPartial(current: Price, target: Price, liquidity: U128, remaining: U256, fee: Fee, lessFee: nat)
    requires liquidity > 0 && remaining > 0
    requires AmountLessFee(remaining, fee) == Ok(lessFee)
    requires var zeroForOne := current >= target;
             lessFee > 0 ==> lessFee < (if zeroForOne then Amount0(target, current, liquidity, true)
                                        else Amount1(current, target, liquidity, true))
    ensures var r := ComputeExactIn(current, target, liquidity, remaining, fee, current >= target);
            r.Ok? && StepSound(current, target, liquidity, 0 - remaining, fee, r.value)
  {
    hide Pow2, Div, CeilDiv, Amount0, Amount1, GetAmount0Delta, GetAmount1Delta, Amount0FromProduct, NextFromInput,
         Amount1FromProduct, AmountLessFee, FeeOnInput, CoversAmount0, CoversAmount1, WithinAmount0, WithinAmount1;
    var zeroForOne := current >= target;
    NoMove(current, liquidity);
    PartialFee(remaining, fee, lessFee);
    if lessFee > 0 {
      AmountsAreWords(current, target, liquidity);
      AmountsSymmetric(current, target, liquidity, true);
      if current == target {
        NoAmounts(current, liquidity);
      }
      BelowMaximum(Min(current, target), Max(current, target), liquidity, lessFee);
      if zeroForOne {
        Amount0InPartial(current, target, liquidity, lessFee);
      } else {
        Amount1InPartial(current, target, liquidity, lessFee);
      }
      var next := NextFromInput(current, liquidity, lessFee, zeroForOne).value;
      AmountsAreWords(current, next, liquidity);
      AmountsSymmetric(current, next, liquidity, false);
      RoundedAmounts(Min(current, next), Max(current, next), liquidity);
    }
  }

  lemma OutFee(amountIn: nat, fee: Fee)
    requires fee < MAX_FEE && amountIn <= Pow2(192) < W256
    ensures FeeOnInput(amountIn, fee).Ok?
    ensures amountIn * fee <= FeeOnInput(amountIn, fee).value * (MAX_FEE - fee)
  {
    hide Pow2, CeilDiv, FeeOnInput;
    FeeOnInputExact(amountIn, fee);
    CeilBounds(amountIn * fee, MAX_FEE - fee);
  }

  lemma ExactOutSound(current: Price, target: Price, liquidity: U128, remaining: U256, fee: Fee)
    requires liquidity > 0 && remaining > 0 && fee < MAX_FEE
    ensures var r := ComputeExactOut(current, target, liquidity, remaining, fee, current >= target);
            r.Ok? && StepSound(current, target, liquidity, remaining, fee, r.value)
  {
    hide Pow2, Div, CeilDiv, Amount0, Amount1, GetAmount0Delta, GetAmount1Delta, Amount0FromProduct, NextFromOutput,
         Amount1FromProduct, FeeOnInput, CoversAmount0, CoversAmount1, WithinAmount0, WithinAmount1;
    var zeroForOne := current >= target;
    AmountsAreWords(current, target, liquidity);
    AmountsSymmetric(current, target, liquidity, true);
    AmountsSymmetric(current, target, liquidity, false);
    var maxOut := if zeroForOne then Amount1(target, current, liquidity, false)
                  else Amount0(current, target, liquidity, false);
    if current == target {
      NoAmounts(current, liquidity);
    }
    if remaining >= maxOut {
      RoundedAmounts(Min(current, target), Max(current, target), liquidity);
      OutFee(if zeroForOne then Amount0(target, current, liquidity, true)
             else Amount1(current, target, liquidity, true), fee);
    } else {
      BelowMaximum(Min(current, target), Max(current, target), liquidity, remaining);
      if zeroForOne {
        Amount1OutPartial(current, target, liquidity, remaining);
      } else {
        Amount0OutPartial(current, target, liquidity, remaining);
      }
      var next := NextFromOutput(current, liquidity, remaining, zeroForOne).value;
      AmountsAreWords(current, next, liquidity);
      AmountsSymmetric(current, next, liquidity, true);
      RoundedAmounts(Min(current, next), Max(current, next), liquidity);
      OutFee(if zeroForOne then Amount0(next, current, liquidity, true)
             else Amount1(current, next, liquidity, true), fee);
    }
  }

  /**
    Totality and soundness of a step: for valid prices, non-zero liquidity and
    a resolved fee it fails exactly for an exact output at a 100% fee, and every
    result is sound.
  */
  lemma StepTotalAndSound(current: Price, target: Price, liquidity: U128, amount: I256, fee: Fee)
    requires liquidity > 0
    ensures var r := ComputeSwapStep(current, target, liquidity, amount, fee);
            && (r.Err? <==> amount > 0 && fee == MAX_FEE)
            && (r.Err? ==> r.error == MaxFeeExactOut)
            && (r.Ok? ==> StepSound(current, target, liquidity, amount, fee, r.value))
  {
    hide Pow2, ComputeExactIn, ComputeExactOut, StepSound, Div;
    if amount == 0 {
      ZeroStep(current, target, liquidity, fee);
    } else if amount < 0 {
      TwiceHalf();
      var remaining := Abs(amount);
      LessFeeExact(remaining, fee);
      var lessFee := AmountLessFee(remaining, fee).value;
      var maxIn := if current >= target then Amount0(target, current, liquidity, true)
                   else Amount1(current, target, liquidity, true);
      if lessFee > 0 && lessFee >= maxIn {
        ExactInReached(current, target, liquidity, remaining, fee, lessFee);
      } else {
        ExactInPartial(current, target, liquidity, remaining, fee, lessFee);
      }
    } else if fee < MAX_FEE {
      TwiceHalf();
      ExactOutSound(current, target, liquidity, amount, fee);
    }
  }

  lemma ZeroStep(current: Price, target: Price, liquidity: U128, fee: Fee)
    ensures StepSound(current, target, liquidity, 0, fee, SwapStep(current, 0, 0, 0))
  {
    NoMove(current, liquidity);
  }

  // -------------------------------------------------------- step exactness

  /** Either amount function yields the reference amount of its range, named either way round. */
  lemma Moves(a: Price, b: Price, liquidity: U128)
    ensures MoveIn(true, a, b, liquidity) == MoveIn(true, b, a, liquidity) <= Pow2(192)
    ensures MoveIn(false, a, b, liquidity) == MoveIn(false, b, a, liquidity) <= Pow2(192)
    ensures Pow2(192) < W256
    ensures var product := liquidity * Width(a, b);
      && GetAmount0Delta(a, b, liquidity, true) == GetAmount0Delta(b, a, liquidity, true)
         == Ok((MoveIn(true, a, b, liquidity), product))
      && GetAmount0Delta(a, b, liquidity, false) == GetAmount0Delta(b, a, liquidity, false)
         == Ok((MoveOut(false, a, b, liquidity), product))
      && GetAmount1Delta(a, b, liquidity, true) == GetAmount1Delta(b, a, liquidity, true)
         == (MoveIn(false, a, b, liquidity), product)
      && GetAmount1Delta(a, b, liquidity, false) == GetAmount1Delta(b, a, liquidity, false)
         == (MoveOut(true, a, b, liquidity), product)
      && Amount0FromProduct(a, b, product, true) == Amount0FromProduct(b, a, product, true)
         == Ok(MoveIn(true, a, b, liquidity))
      && Amount0FromProduct(a, b, product, false) == Amount0FromProduct(b, a, product, false)
         == Ok(MoveOut(false, a, b, liquidity))
      && Amount1FromProduct(product, true) == MoveIn(false, a, b, liquidity)
      && Amount1FromProduct(product, false) == MoveOut(true, a, b, liquidity)
  {
    hide GetAmount0Delta, GetAmount1Delta, Amount0FromProduct, Amount1FromProduct, Amount0, Amount1, Pow2, Width;
    AmountsAreWords(a, b, liquidity);
    AmountsSymmetric(a, b, liquidity, true);
    AmountsSymmetric(a, b, liquidity, false);
  }

  lemma NoMoveOut(p: Price, liquidity: U128)
    ensures MoveOut(true, p, p, liquidity) == 0 == MoveOut(false, p, p, liquidity)
  {
    hide Amount0, Amount1;
    NoAmounts(p, liquidity);
  }

  /** Token0 in: the price found is the least one covered. */
  lemma Amount0InNext(p: Price, liquidity: U128, net: U256, next: Price)
    requires liquidity > 0 && net > 0 && NextFromInput(p, liquidity, net, true) == Ok(next)
    ensures FarthestCovered(p, liquidity, net, true, next)
  {
    hide Pow2, AddFallback, CeilDiv, Div, IntoPrice, NextFromAmount0Add;
    var n := liquidity * Q96;
    AddDenominatorPositive(p, liquidity, net);
    NextFromAmount0AddExact(p, liquidity, net);
    var exact := ExactNext0Add(p, liquidity, net);
    var d := n + net * p;
    CeilBounds(n * p, d);
    IntoPriceExact(exact);
    FallbackBounds(p, n, net);
    CeilBounds(n, Behind(p, liquidity) + net);
    MulMono(exact, next, d);
    NextCoversInput(n, p, next, net, d);
    if d < W256 {
      OneLessDoesNot(n, p, next - 1, net, d);
    }
  }

  lemma OneLessDoesNot(n: int, p: int, v: int, amount: int, d: int)
    requires d == n + amount * p && v * d < n * p
    ensures n * (p - v) > amount * (v * p)
  {
    assert v * d == n * v + amount * (v * p);
    assert n * (p - v) == n * p - n * v;
  }

  /** Token1 in: the price found is the greatest one covered. */
  lemma Amount1InNext(p: Price, liquidity: U128, net: U256, next: Price)
    requires liquidity > 0 && net > 0 && NextFromInput(p, liquidity, net, false) == Ok(next)
    ensures FarthestCovered(p, liquidity, net, false, next)
  {
    hide Pow2, Div, NextFromAmount1Add;
    NextFromAmount1AddExact(p, liquidity, net);
    var q := Div(net * Q96, liquidity);
    FloorBounds(net * Q96, liquidity);
    assert liquidity * q == q * liquidity && liquidity * (q + 1) == (q + 1) * liquidity;
  }

  /** Token1 out: the price found is the greatest one that yields the request. */
  lemma Amount1OutNext(p: Price, liquidity: U128, amount: U256, next: Price)
    requires liquidity > 0 && amount > 0 && NextFromOutput(p, liquidity, amount, true) == Ok(next)
    ensures NearestYielding(p, liquidity, amount, true, next)
  {
    hide Pow2, CeilDiv, NextFromAmount1Sub;
    NextFromAmount1SubExact(p, liquidity, amount);
    var q := CeilDiv(amount * Q96, liquidity);
    CeilBounds(amount * Q96, liquidity);
    assert liquidity * q == q * liquidity && liquidity * (q - 1) == (q - 1) * liquidity;
  }

  /** Token0 out: the price found is the least one that yields the request. */
  lemma Amount0OutNext(p: Price, liquidity: U128, amount: U256, next: Price)
    requires liquidity > 0 && amount > 0 && NextFromOutput(p, liquidity, amount, false) == Ok(next)
    ensures NearestYielding(p, liquidity, amount, false, next)
  {
    hide Pow2, CeilDiv, IntoPrice, NextFromAmount0Sub;
    var n := liquidity * Q96;
    AddDenominatorPositive(p, liquidity, amount);
    NextFromAmount0SubExact(p, liquidity, amount);
    var exact := ExactNext0Sub(p, liquidity, amount);
    IntoPriceExact(exact);
    var d := n - amount * p;
    CeilBounds(n * p, d);
    StartBelowNext(n, p, amount, next, d);
    OutputWithin(n, p, next, amount, d);
    OneLessYieldsLess(n, p, next - 1, amount, d);
  }

  lemma OneLessYieldsLess(n: int, p: int, v: int, amount: int, d: int)
    requires d == n - amount * p && v * d < n * p
    ensures amount * (p * v) > n * (v - p)
  {
    assert v * d == n * v - amount * (p * v);
    assert n * (v - p) == n * v - n * p;
  }

  lemma ExactInNumbers(current: Price, target: Price, liquidity: U128, remaining: U256, fee: Fee)
    requires liquidity > 0 && remaining > 0
    ensures var r := ComputeExactIn(current, target, liquidity, remaining, fee, current >= target);
            r.Ok? ==> ExactInAmounts(current, target, liquidity, remaining, fee, r.value)
  {
    hide Pow2, Div, CeilDiv, MoveIn, MoveOut, GetAmount0Delta, GetAmount1Delta, Amount0FromProduct, NextFromInput,
         Amount1FromProduct, AmountLessFee, FeeOnInput, Width, FarthestCovered;
    var zeroForOne := current >= target;
    LessFeeExact(remaining, fee);
    FullFeeLeavesNothing(remaining, fee);
    NoMoveOut(current, liquidity);
    Moves(current, target, liquidity);
    var net := NetInput(remaining, fee);
    if net > 0 {
      var maxIn := MoveIn(zeroForOne, current, target, liquidity);
      if net >= maxIn {
        FeeOnInputExact(maxIn, fee);
      } else {
        var next := NextFromInput(current, liquidity, net, zeroForOne);
        if next.Ok? {
          Moves(current, next.value, liquidity);
          if zeroForOne {
            Amount0InNext(current, liquidity, net, next.value);
          } else {
            Amount1InNext(current, liquidity, net, next.value);
          }
        }
      }
    }
  }

  lemma ExactOutNumbers(current: Price, target: Price, liquidity: U128, amount: U256, fee: Fee)
    requires liquidity > 0 && amount > 0 && fee < MAX_FEE
    ensures var r := ComputeExactOut(current, target, liquidity, amount, fee, current >= target);
            r.Ok? ==> ExactOutAmounts(current, target, liquidity, amount, fee, r.value)
  {
    hide Pow2, Div, CeilDiv, MoveIn, MoveOut, GetAmount0Delta, GetAmount1Delta, Amount0FromProduct, NextFromOutput,
         Amount1FromProduct, FeeOnInput, Width, NearestYielding;
    var zeroForOne := current >= target;
    Moves(current, target, liquidity);
    if amount >= MoveOut(zeroForOne, current, target, liquidity) {
      FeeOnInputExact(MoveIn(zeroForOne, current, target, liquidity), fee);
    } else {
      var next := NextFromOutput(current, liquidity, amount, zeroForOne);
      if next.Ok? {
        Moves(current, next.value, liquidity);
        if zeroForOne {
          Amount1OutNext(current, liquidity, amount, next.value);
        } else {
          Amount0OutNext(current, liquidity, amount, next.value);
        }
        FeeOnInputExact(MoveIn(zeroForOne, current, next.value, liquidity), fee);
      }
    }
  }

  /** Every number a step reports is the exact one for its case. */
  lemma StepExact(current: Price, target: Price, liquidity: U128, amount: I256, fee: Fee)
    requires liquidity > 0
    ensures Abs(amount) < W256
    ensures var r := ComputeSwapStep(current, target, liquidity, amount, fee);
            r.Ok? ==>
              if amount == 0 then r.value == SwapStep(current, 0, 0, 0)
              else if amount < 0 then ExactInAmounts(current, target, liquidity, Abs(amount), fee, r.value)
              else ExactOutAmounts(current, target, liquidity, Abs(amount), fee, r.value)
  {
    hide Pow2, ComputeExactIn, ComputeExactOut, ExactInAmounts, ExactOutAmounts;
    TwiceHalf();
    if amount < 0 {
      ExactInNumbers(current, target, liquidity, Abs(amount), fee);
    } else if amount > 0 && fee < MAX_FEE {
      ExactOutNumbers(current, target, liquidity, amount, fee);
    }
  }

  /**
    When a downward step ends on its target, from its inputs: the net input
    pays for the whole move, or the requested output takes the price there,
    which by rounding up it can do with up to one price unit less than the
    whole amount of the move.
  */
  ghost predicate ReachesDown(current: Price, target: Price, liquidity: U128, amount: I256, fee: Fee) {
    if amount < 0 then
      current == target
      || (NetInput(Abs(amount), fee) > 0
          && NetInput(Abs(amount), fee) >= MoveIn(true, current, target, liquidity))
    else
      amount >= MoveOut(true, current, target, liquidity) || liquidity * (current - target - 1) < amount * Q96
  }

  lemma ReachesDownExact(current: Price, target: Price, liquidity: U128, amount: I256, fee: Fee)
    requires liquidity > 0 && target <= current && amount != 0
    ensures var r := ComputeSwapStep(current, target, liquidity, amount, fee);
            r.Ok? ==> (r.value.next == target <==> ReachesDown(current, target, liquidity, amount, fee))
  {
    hide *;
    StepExact(current, target, liquidity, amount, fee);
    var r := ComputeSwapStep(current, target, liquidity, amount, fee);
    ReachesDownDef(current, target, liquidity, amount, fee);
    if r.Ok? {
      if amount < 0 {
        InputReaches(current, target, liquidity, Abs(amount), fee, r.value);
      } else {
        OutputReaches(current, target, liquidity, amount, fee, r.value);
      }
    }
  }

  lemma ReachesDownDef(current: Price, target: Price, liquidity: U128, amount: I256, fee: Fee)
    ensures amount < 0 ==>
              (ReachesDown(current, target, liquidity, amount, fee)
               <==> current == target
                    || (NetInput(Abs(amount), fee) > 0
                        && NetInput(Abs(amount), fee) >= MoveIn(true, current, target, liquidity)))
    ensures amount >= 0 ==>
              Abs(amount) == amount
              && (ReachesDown(current, target, liquidity, amount, fee)
                  <==> amount >= MoveOut(true, current, target, liquidity)
                       || liquidity * (current - target - 1) < amount * Q96)
  {
    hide NetInput, MoveIn, MoveOut;
  }

  lemma InputReaches(current: Price, target: Price, liquidity: U128, remaining: U256, fee: Fee, step: SwapStep)
    requires liquidity > 0 && target <= current
    requires ExactInAmounts(current, target, liquidity, remaining, fee, step)
    ensures step.next == target
            <==> current == target
                 || (NetInput(remaining, fee) > 0
                     && NetInput(remaining, fee) >= MoveIn(true, current, target, liquidity))
  {
    hide Pow2, NetInput, MoveIn, MoveOut, FeeOnTop, CoversAmount0, CoversAmount1;
    var net := NetInput(remaining, fee);
    if 0 < net < MoveIn(true, current, target, liquidity) {
      NetBelowMaximum(current, target, liquidity, net);
      CoveredIsAbove(current, target, liquidity, net, step.next);
    }
  }

  lemma CoveredIsAbove(current: Price, target: Price, liquidity: U128, net: nat, next: Price)
    requires CoversAmount0(net, next, current, liquidity)
    requires net * (target * current) < liquidity * Q96 * (current - target)
    ensures target < next
  {
    hide Pow2;
    var n := liquidity * Q96;
    NumeratorPositive(liquidity);
    MulNonNegative(liquidity, Q96);
    MulNonNegative(net, current);
    CoveredOrder(n, current, target, next, net, n + net * current);
  }

  lemma CoveredOrder(n: int, p: int, t: int, v: int, amount: int, d: int)
    requires d == n + amount * p && d >= 0
    requires amount * (t * p) < n * (p - t) && n * (p - v) <= amount * (v * p)
    ensures t < v
  {
    assert t * d == t * n + amount * (t * p) && n * (p - t) == n * p - t * n;
    assert v * d == v * n + amount * (v * p) && n * (p - v) == n * p - v * n;
    if v <= t {
      MulMono(v, t, d);
    }
  }

  lemma NetBelowMaximum(current: Price, target: Price, liquidity: U128, net: nat)
    requires target <= current && net < MoveIn(true, current, target, liquidity)
    ensures net * (target * current) < liquidity * Q96 * (current - target)
  {
    hide Amount0, Amount1, Pow2;
    AmountsSymmetric(current, target, liquidity, true);
    BelowMaximum(target, current, liquidity, net);
  }

  lemma OutputReaches(current: Price, target: Price, liquidity: U128, amount: U256, fee: Fee, step: SwapStep)
    requires liquidity > 0 && target <= current && amount > 0
    requires ExactOutAmounts(current, target, liquidity, amount, fee, step)
    ensures step.next == target
            <==> amount >= MoveOut(true, current, target, liquidity)
                 || liquidity * (current - target - 1) < amount * Q96
  {
    hide Pow2, MoveIn, MoveOut, FeeOnTop, WithinAmount0, WithinAmount1;
    if amount < MoveOut(true, current, target, liquidity) {
      YieldedPrice(current, target, liquidity, amount, step.next);
    }
  }

  lemma YieldedPrice(current: Price, target: Price, liquidity: U128, amount: nat, next: Price)
    requires liquidity > 0 && target <= current && amount < MoveOut(true, current, target, liquidity)
    requires WithinAmount1(amount, next, current, liquidity) && !WithinAmount1(amount, next + 1, current, liquidity)
    ensures next == target <==> liquidity * (current - target - 1) < amount * Q96
  {
    hide Pow2, Div, CeilDiv, Amount0, Amount1;
    AmountsSymmetric(current, target, liquidity, false);
    BelowMaximum(target, current, liquidity, amount);
    if next < target {
      MulMono(current - target, current - next - 1, liquidity);
    } else if next > target {
      MulMono(current - next, current - target - 1, liquidity);
    }
  }
}
