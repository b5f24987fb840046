/**
  The stable-pair dynamic-fee hook of src/v4/stable_pair.rs: a fee that pins
  the price a swap effectively trades at to an optimal range around a reference
  price, decaying block by block outside it.

  Differences that the source takes on unsigned words are taken on integers
  here; the lemmas show that none of them is ever negative.
*/
module StablePair {
  import opened Arith
  import opened Bits
  import opened Wrappers
  import opened SqrtPriceMath

  const E6: nat := 1_000_000
  const E12: nat := 1_000_000_000_000

  /** Stored while the price is inside the optimal range. */
  const UNDEFINED: nat := E12 + 1

  const MAX_FEE_E6: nat := E6 - 2
  const MAX_TARGET_MULTIPLIER: nat := 100
  const MAX_OPTIMAL_FEE: nat := 10_000
  const Q24: nat := Pow2(24)
  const Q48: nat := Pow2(48)

  /** The integer square root of (E6 - MAX_OPTIMAL_FEE) * E6. */
  const ROOT: nat := 994_987

  datatype Config = Config(k: nat, optimalFee: nat, targetMultiplier: nat, reference: nat)

  datatype State = State(decayingFee: nat, price: nat, block: nat)

  /** What a call sees: the block, the pool's price, and the approximated factor for gaps of five blocks or more. */
  datatype Env = Env(block: nat, price: Price, slowFactor: nat)

  /** `validate_config`. */
  predicate Accepted(c: Config) {
    && 0 < c.k < Q24
    && c.optimalFee <= MAX_OPTIMAL_FEE
    && c.targetMultiplier <= MAX_TARGET_MULTIPLIER
    && CeilDiv(MIN_SQRT_PRICE * E6, ROOT) <= c.reference < Div(MAX_SQRT_PRICE * ROOT, E6)
  }

  predicate Usable(env: Env) {
    env.slowFactor <= Q24
  }

  // --------------------------------------------------------------- formulas

  /** `price_ratio_x96`: the squared quotient of the smaller by the larger root price, in Q96. */
  function PriceRatio(a: nat, b: nat): nat
    requires a > 0
  {
    var root := if a < b then Div(a * Q48, b) else Div(b * Q48, a);
    MulNonNegative(root, root);
    root * root
  }

  /** `close_boundary_fee`: positive exactly outside the optimal range. */
  function CloseBoundaryFee(ratio: nat, optimalFee: nat): int
    requires optimalFee <= MAX_OPTIMAL_FEE
  {
    E12 - Div(Div(E12 * ratio * E6, E6 - optimalFee), Pow2(96))
  }

  /** `far_boundary_fee`. */
  function FarBoundaryFee(ratio: nat, optimalFee: nat): int
    requires optimalFee <= MAX_OPTIMAL_FEE
  {
    MulNonNegative(E12 * (E6 - optimalFee), ratio);
    E12 - Div(Div(E12 * (E6 - optimalFee) * ratio, Pow2(96)), E6)
  }

  /** `inside_optimal_range_fee`. */
  function InsideFee(ratio: nat, optimalFee: nat, below: bool, zeroForOne: bool): int
    requires optimalFee <= MAX_OPTIMAL_FEE && ratio > 0
  {
    var scaled := E12 * (E6 - optimalFee);
    MulNonNegative(scaled, ratio);
    MulNonNegative(scaled, Pow2(96));
    E12 - if below == zeroForOne then Div(Div(scaled * Pow2(96), ratio), E6)
          else Div(Div(scaled * ratio, Pow2(96)), E6)
  }

  /** `adjust_previous_fee_for_price_movement`. */
  function AdjustedFee(ratio: nat, previousFee: nat): int
    requires previousFee <= E12
  {
    MulNonNegative(ratio, E12 - previousFee);
    E12 - Div(ratio * (E12 - previousFee), Pow2(96))
  }

  /** The factor by which the fee's excess over its target shrinks, in Q24. */
  function DecayFactor(k: nat, blocks: nat, slowFactor: nat): nat {
    MulNonNegative(k, k);
    MulNonNegative(k * k, k);
    MulNonNegative(k * k, k * k);
    match blocks
    case 0 => Q24
    case 1 => k
    case 2 => Div(k * k, Pow2(24))
    case 3 => Div(k * k * k, Pow2(48))
    case 4 => Div((k * k) * (k * k), Pow2(72))
    case _ => slowFactor
  }

  /** The free function `decaying_fee`. */
  function Decayed(target: int, start: int, factor: nat): int
    requires target <= start
  {
    MulNonNegative(factor, start - target);
    target + Div(factor * (start - target), Q24)
  }

  /** The fee the decay starts from, before it is raised to the target. */
  function StartFee(c: Config, s: State, price: nat, far: int, below: bool): int
    requires s.decayingFee <= UNDEFINED && price > 0
  {
    if s.decayingFee == UNDEFINED || (s.price < c.reference) != below then far
    else if below == (price < s.price) then AdjustedFee(PriceRatio(price, s.price), s.decayingFee)
    else Min(s.decayingFee, far)
  }

  /** The fee the decay tends to. */
  function TargetFee(c: Config, close: int, far: int): int
    requires close > 0
  {
    MulNonNegative(close, c.targetMultiplier);
    far - Div(close * c.targetMultiplier, MAX_TARGET_MULTIPLIER)
  }

  /** The method `decaying_fee`. */
  function NewDecayingFee(c: Config, s: State, env: Env, close: int, far: int, below: bool): int
    requires s.decayingFee <= UNDEFINED && close > 0
  {
    var target := TargetFee(c, close, far);
    var start := Max(StartFee(c, s, env.price, far, below), target);
    Decayed(target, start, DecayFactor(c.k, Max(env.block - s.block, 0), env.slowFactor))
  }

  /** `get_fee`: the LP fee in units of 1e-12 and the decaying fee to store. */
  function GetFee(c: Config, s: State, env: Env, price: nat, opens: bool, zeroForOne: bool): (int, int)
    requires Accepted(c) && s.decayingFee <= UNDEFINED && price > 0
    requires opens ==> price == env.price
  {
    var ratio := PriceRatio(price, c.reference);
    var close := CloseBoundaryFee(ratio, c.optimalFee);
    var below := price < c.reference;
    if close <= 0 then
      InsideMeans(ratio, c.optimalFee);
      (InsideFee(ratio, c.optimalFee, below, zeroForOne), UNDEFINED)
    else
      var decaying := if opens then NewDecayingFee(c, s, env, close, FarBoundaryFee(ratio, c.optimalFee), below)
                      else s.decayingFee;
      (if below == zeroForOne then 0 else decaying, decaying)
  }

  /** `to_fee_e6`. */
  function ToPips(fee: nat): nat {
    Min(CeilDiv(fee, E6), MAX_FEE_E6)
  }

  /** A call opens a block when it is the first to be seen in it, or when no price is stored. */
  predicate Opens(s: State, env: Env) {
    env.block > s.block || s.price == 0
  }

  function PriceUsed(s: State, env: Env): nat {
    if Opens(s, env) then env.price else s.price
  }

  /** The charged fee and the next state. */
  function BeforeSwap(c: Config, s: State, env: Env, zeroForOne: bool): (r: (nat, State))
    requires Accepted(c) && s.decayingFee <= UNDEFINED && Usable(env)
    ensures r.1.decayingFee <= UNDEFINED
  {
    FeesInRange(c, s, env, zeroForOne);
    var (fee, decaying) := GetFee(c, s, env, PriceUsed(s, env), Opens(s, env), zeroForOne);
    (ToPips(fee), if Opens(s, env) then State(decaying, env.price, env.block) else s)
  }

  // ------------------------------------------------------------ price ratios

  lemma Q48Squared()
    ensures Q48 * Q48 == Pow2(96) && Q48 > 0 && Pow2(96) > 0
  {
    Pow2Add(48, 48);
  }

  /** A ratio is at most one, and one only for equal prices. */
  lemma RatioBounds(a: nat, b: nat)
    requires a > 0
    ensures PriceRatio(a, b) <= Pow2(96)
    ensures PriceRatio(a, b) == Pow2(96) <==> a == b
  {
    hide Div, Pow2;
    Q48Squared();
    var (lo, hi) := if a < b then (a, b) else (b, a);
    var root := Div(lo * Q48, hi);
    FloorAtLeast(lo * Q48, hi, Q48);
    assert hi * Q48 == Q48 * hi;
    if lo < hi {
      MulStrict(lo, hi, Q48);
      MulStrict2(root, Q48, root, Q48);
    } else {
      FloorAtLeast(lo * Q48, hi, Q48 + 1);
      assert (Q48 + 1) * hi == hi * Q48 + hi;
    }
  }

  /** A ratio never exceeds the square of the true price quotient. */
  lemma RatioBelowQuotient(a: nat, b: nat)
    requires a > 0 && b > 0
    ensures PriceRatio(a, b) * (Max(a, b) * Max(a, b)) <= Pow2(96) * (Min(a, b) * Min(a, b))
  {
    hide Div, Pow2;
    Q48Squared();
    var (lo, hi) := if a < b then (a, b) else (b, a);
    var root := Div(lo * Q48, hi);
    FloorBounds(lo * Q48, hi);
    MulNonNegative(root, hi);
    MulMono2(root * hi, lo * Q48, root * hi, lo * Q48);
    SquareOfProduct(root, hi);
    SquareOfProduct(lo, Q48);
  }

  /** A ratio is the square of the root-price quotient in Q48, rounded down once before squaring. */
  lemma RatioExact(a: nat, b: nat, root: nat)
    requires a > 0 && b > 0
    requires root * Max(a, b) <= Min(a, b) * Pow2(48) < (root + 1) * Max(a, b)
    ensures PriceRatio(a, b) == root * root
  {
    hide Div, Pow2;
    var (lo, hi) := if a < b then (a, b) else (b, a);
    FloorAtLeast(lo * Q48, hi, root);
    FloorAtLeast(lo * Q48, hi, root + 1);
  }

  lemma FloorTwice(x: nat, a: nat, b: nat, q: int)
    requires a > 0 && b > 0
    ensures q <= Div(Div(x, a), b) <==> q * b * a <= x
  {
    hide Div;
    FloorAtLeast(Div(x, a), b, q);
    FloorAtLeast(x, a, q * b);
  }

  // ------------------------------------------------------------ fee formulas

  /** The rounded boundary test is exact: the fee is positive iff ratio < 1 - optimalFee. */
  lemma InsideMeans(ratio: nat, o: nat)
    requires o <= MAX_OPTIMAL_FEE
    ensures CloseBoundaryFee(ratio, o) <= 0 <==> Pow2(96) * (E6 - o) <= ratio * E6
    ensures CloseBoundaryFee(ratio, o) <= 0 ==> ratio > 0
    ensures CloseBoundaryFee(ratio, o) <= E12
  {
    hide Div, Pow2;
    Q48Squared();
    FloorTwice(E12 * ratio * E6, E6 - o, Pow2(96), E12);
    FloorTwice(E12 * ratio * E6, E6 - o, Pow2(96), 0);
    MulNonNegative(Pow2(96), E6 - o);
    var (x, y) := (Pow2(96) * (E6 - o), ratio * E6);
    assert E12 * Pow2(96) * (E6 - o) == E12 * x;
    assert E12 * ratio * E6 == E12 * y;
    MulStrict(0, Pow2(96), E6 - o);
  }

  /** Both boundary fees: what they leave of the unit is the quotient of ratio and 1 - optimalFee, or their product. */
  lemma BoundariesExact(ratio: nat, o: nat)
    requires o <= MAX_OPTIMAL_FEE
    ensures var left := E12 - CloseBoundaryFee(ratio, o);
            left * Pow2(96) * (1_000_000 - o) <= E12 * ratio * 1_000_000 < (left + 1) * Pow2(96) * (1_000_000 - o)
    ensures var left := E12 - FarBoundaryFee(ratio, o);
            left * 1_000_000 * Pow2(96) <= E12 * (1_000_000 - o) * ratio < (left + 1) * 1_000_000 * Pow2(96)
  {
    hide Div, Pow2;
    Q48Squared();
    MulNonNegative(E12 * (E6 - o), ratio);
    var close := E12 - CloseBoundaryFee(ratio, o);
    var far := E12 - FarBoundaryFee(ratio, o);
    FloorTwice(E12 * ratio * E6, E6 - o, Pow2(96), close);
    FloorTwice(E12 * ratio * E6, E6 - o, Pow2(96), close + 1);
    FloorTwice(E12 * (E6 - o) * ratio, Pow2(96), E6, far);
    FloorTwice(E12 * (E6 - o) * ratio, Pow2(96), E6, far + 1);
  }

  /** Outside the range the boundary fees are ordered and none of the subtractions is negative. */
  lemma BoundaryFees(ratio: nat, o: nat)
    requires o <= MAX_OPTIMAL_FEE && ratio <= Pow2(96)
    ensures CloseBoundaryFee(ratio, o) <= FarBoundaryFee(ratio, o)
    ensures 0 <= FarBoundaryFee(ratio, o) <= E12
  {
    hide Div, Pow2;
    Q48Squared();
    var m := E6 - o;
    MulNonNegative(E12 * m, ratio);
    var x := E12 * m * ratio;
    var far := Div(Div(x, Pow2(96)), E6);
    FloorTwice(x, Pow2(96), E6, far);
    FloorTwice(x, Pow2(96), E6, 0);
    MulMono2(E12 * m, E12 * E6, ratio, Pow2(96));
    BoundaryIdentities(far, ratio, m, Pow2(96));
    MulCancelLe(far, E12, E6 * Pow2(96));
    MulNonNegative(far, Pow2(96));
    MulMono(m, E6, far * Pow2(96));
    MulMono(m, E6, E12 * ratio);
    FloorTwice(E12 * ratio * E6, m, Pow2(96), far);
  }

  lemma BoundaryIdentities(far: int, ratio: int, m: int, q: int)
    ensures far * E6 * q == far * (E6 * q) == far * q * E6
    ensures E12 * E6 * q == E12 * (E6 * q)
    ensures E12 * m * ratio == E12 * ratio * m
  {
  }

  /**
    Inside the range the fee puts the price a swap effectively trades at on the
    boundary it moves towards: ratio * (1 - fee) for a swap away from the
    reference, and (1 - fee) / ratio for one towards it, is 1 - optimalFee,
    rounded so that the fee is less than one unit too high.
  */
  lemma InsidePinned(ratio: nat, o: nat, below: bool, zeroForOne: bool)
    requires o <= MAX_OPTIMAL_FEE && ratio <= Pow2(96) && Pow2(96) * (E6 - o) <= ratio * E6 && ratio > 0
    ensures var fee := InsideFee(ratio, o, below, zeroForOne);
            var boundary := E12 * (E6 - o);
            && 0 <= fee <= E12
            && if below == zeroForOne then
                 (E12 - fee) * E6 * ratio <= boundary * Pow2(96) < (E12 - fee + 1) * E6 * ratio
               else
                 (E12 - fee) * E6 * Pow2(96) <= boundary * ratio < (E12 - fee + 1) * E6 * Pow2(96)
  {
    hide Div, Pow2;
    Q48Squared();
    var scaled := E12 * (E6 - o);
    MulNonNegative(scaled, ratio);
    MulNonNegative(scaled, Pow2(96));
    var (x, d) := if below == zeroForOne then (scaled * Pow2(96), ratio) else (scaled * ratio, Pow2(96));
    var t := Div(Div(x, d), E6);
    FloorTwice(x, d, E6, t);
    FloorTwice(x, d, E6, t + 1);
    FloorTwice(x, d, E6, 0);
    FloorTwice(x, d, E6, E12 + 1);
    InsideIdentities(ratio, E6 - o, Pow2(96));
    MulMono2(E6 - o, E6, ratio, Pow2(96));
  }

  lemma InsideIdentities(ratio: nat, m: nat, q: nat)
    ensures E12 * m * q == E12 * (q * m) && E12 * m * ratio == E12 * (m * ratio)
    ensures (E12 + 1) * E6 * ratio == E12 * (ratio * E6) + E6 * ratio
    ensures (E12 + 1) * E6 * q == E12 * (E6 * q) + E6 * q
  {
  }

  /** As the price moves away the fee rises just so much that the effective price stays where it was. */
  lemma AdjustedPinned(ratio: nat, previousFee: nat)
    requires ratio <= Pow2(96) && previousFee <= E12
    ensures var fee := AdjustedFee(ratio, previousFee);
            && previousFee <= fee <= E12
            && (E12 - fee) * Pow2(96) <= ratio * (E12 - previousFee) < (E12 - fee + 1) * Pow2(96)
  {
    hide Div, Pow2;
    Q48Squared();
    var rest := E12 - previousFee;
    MulNonNegative(ratio, rest);
    FloorBounds(ratio * rest, Pow2(96));
    FloorAtLeast(ratio * rest, Pow2(96), 0);
    FloorAtLeast(ratio * rest, Pow2(96), rest + 1);
    MulMono(ratio, Pow2(96), rest);
    assert (rest + 1) * Pow2(96) == Pow2(96) * rest + Pow2(96);
  }

  // ------------------------------------------------------------------- decay

  /** Up to four blocks the factor is (k / 2^24)^blocks in Q24, rounded down once. */
  lemma FastFactorExact(k: nat, blocks: nat, slowFactor: nat)
    requires blocks <= 4
    ensures var factor := DecayFactor(k, blocks, slowFactor);
            factor * Pow2(24 * blocks) <= Power(k, blocks) * Q24 < (factor + 1) * Pow2(24 * blocks)
  {
    hide *;
    if blocks == 0 {
      FactorOfNone(k, slowFactor);
    } else {
      FactorIs(k, blocks, slowFactor);
      Pow2Add(24 * (blocks - 1), 24);
      assert 24 * blocks == 24 * (blocks - 1) + 24;
      RoundedOnce(Power(k, blocks), Pow2(24 * (blocks - 1)), Pow2(24));
      Q24Is();
    }
  }

  lemma Q24Is()
    ensures Q24 == Pow2(24)
  {
  }

  lemma FactorOfNone(k: nat, slowFactor: nat)
    ensures DecayFactor(k, 0, slowFactor) == Q24 == Power(k, 0) * Q24 && Pow2(24 * 0) == 1
  {
  }

  lemma FactorIs(k: nat, blocks: nat, slowFactor: nat)
    requires 1 <= blocks <= 4
    ensures DecayFactor(k, blocks, slowFactor) == Div(Power(k, blocks), Pow2(24 * (blocks - 1)))
  {
    hide Div, Pow2;
    Pow2Of0();
    PowersOfK(k);
    DivModByOne(k);
  }

  lemma RoundedOnce(x: nat, d: nat, q: nat)
    requires d > 0 && q > 0
    ensures Div(x, d) * (d * q) <= x * q < (Div(x, d) + 1) * (d * q)
  {
    hide *;
    var f := Div(x, d);
    FloorBounds(x, d);
    MulMono(f * d, x, q);
    MulStrict(x, (f + 1) * d, q);
    assert f * d * q == f * (d * q) && (f + 1) * d * q == (f + 1) * (d * q);
  }

  lemma Pow2Of0()
    ensures Pow2(0) == 1
  {
  }

  lemma PowersOfK(k: nat)
    ensures k * k >= 0 && k * k * k >= 0 && (k * k) * (k * k) >= 0
    ensures Power(k, 0) == 1 && Power(k, 1) == k && Power(k, 2) == k * k && Power(k, 3) == k * k * k
    ensures Power(k, 4) == (k * k) * (k * k)
  {
    assert Power(k, 1) == k * Power(k, 0);
    assert Power(k, 2) == k * Power(k, 1);
    assert Power(k, 3) == k * Power(k, 2);
    assert Power(k, 4) == k * Power(k, 3);
    assert k * k * k * k == (k * k) * (k * k);
  }

  /** Each further block shrinks the factor, which starts at one. */
  lemma FactorShrinks(k: nat, blocks: nat, slowFactor: nat)
    requires k <= Q24 && blocks < 4
    ensures DecayFactor(k, blocks + 1, slowFactor) <= DecayFactor(k, blocks, slowFactor) <= Q24
  {
    hide DecayFactor, Power, Pow2;
    if blocks > 0 {
      FactorShrinks(k, blocks - 1, slowFactor);
    } else {
      FactorOfNone(k, slowFactor);
    }
    FactorStep(k, blocks, slowFactor);
  }

  lemma FactorStep(k: nat, blocks: nat, slowFactor: nat)
    requires k <= Q24 && blocks < 4
    ensures DecayFactor(k, blocks + 1, slowFactor) <= DecayFactor(k, blocks, slowFactor)
  {
    hide *;
    FastFactorExact(k, blocks, slowFactor);
    FastFactorExact(k, blocks + 1, slowFactor);
    PowerStep(k, blocks);
    Pow2Add(24 * blocks, 24);
    Q24Is();
    assert 24 * (blocks + 1) == 24 * blocks + 24;
    ShrunkQuotient(Power(k, blocks), k, Q24, Pow2(24 * blocks), DecayFactor(k, blocks, slowFactor),
                   DecayFactor(k, blocks + 1, slowFactor));
  }

  lemma ShrunkQuotient(x: nat, k: nat, q: nat, w: nat, f: nat, g: nat)
    requires k <= q && q > 0 && w > 0
    requires x * q < (f + 1) * w && g * (w * q) <= x * k * q
    ensures g <= f
  {
    MulNonNegative(x, q);
    MulMono(k, q, x * q);
    MulStrict(x * q, (f + 1) * w, q);
    MulStrict(0, w, q);
    assert x * k * q == x * q * k && (f + 1) * w * q == (f + 1) * (w * q);
    MulCancel(g, f + 1, w * q);
  }

  lemma PowerStep(k: nat, n: nat)
    ensures Power(k, n + 1) == Power(k, n) * k
  {
  }

  lemma FactorAtMostOne(c: Config, blocks: nat, slowFactor: nat)
    requires c.k < Q24 && slowFactor <= Q24
    ensures DecayFactor(c.k, blocks, slowFactor) <= Q24
  {
    hide Div, Pow2;
    if blocks < 4 {
      FactorShrinks(c.k, blocks, slowFactor);
    } else if blocks == 4 {
      FactorShrinks(c.k, 3, slowFactor);
    }
  }

  /** Decay stays between target and start, and a smaller factor gives a smaller fee. */
  lemma DecayedBetween(target: int, start: int, factor: nat, smaller: nat)
    requires target <= start && smaller <= factor <= Q24
    ensures target <= Decayed(target, start, smaller) <= Decayed(target, start, factor) <= start
    ensures Decayed(target, start, Q24) == start
  {
    hide Div, Pow2;
    var d := start - target;
    MulNonNegative(factor, d);
    MulNonNegative(smaller, d);
    MulMono(smaller, factor, d);
    MulMono(factor, Q24, d);
    FloorMono(smaller * d, factor * d, Q24);
    FloorMono(factor * d, Q24 * d, Q24);
    DivModUnique(Q24 * d, Q24, d, 0);
  }

  /**
    What the decay starts from: the far boundary after a time inside the range
    or a change of side, the fee that pins the effective price when the price
    moved away, and otherwise the stored fee, up to the far boundary.
  */
  predicate StartsFrom(c: Config, s: State, price: nat, far: int, start: int)
    requires price > 0
  {
    var ratio := PriceRatio(price, s.price);
    if s.decayingFee == UNDEFINED || (s.price < c.reference && price >= c.reference)
       || (s.price >= c.reference && price < c.reference) then
      start == far
    else if (price < c.reference && price < s.price) || (price >= c.reference && price >= s.price) then
      (E12 - start) * Pow2(96) <= ratio * (E12 - s.decayingFee) < (E12 - start + 1) * Pow2(96)
    else
      start <= far && start <= s.decayingFee && (start == far || start == s.decayingFee)
  }

  /**
    The fee a block opens with outside the range: the target lies below the far
    boundary by the multiplier's percentage of the close one, the start is
    fixed by cases, and what remains of the way from start to target is the
    factor for the blocks that have passed.
  */
  lemma OpeningFeeExact(c: Config, s: State, env: Env)
    requires Accepted(c) && s.decayingFee <= UNDEFINED && Usable(env)
    requires CloseBoundaryFee(PriceRatio(env.price, c.reference), c.optimalFee) > 0
    ensures var ratio := PriceRatio(env.price, c.reference);
            var (close, far) := (CloseBoundaryFee(ratio, c.optimalFee), FarBoundaryFee(ratio, c.optimalFee));
            var below := env.price < c.reference;
            var target := TargetFee(c, close, far);
            var start := StartFee(c, s, env.price, far, below);
            var from := if start < target then target else start;
            var blocks := if env.block > s.block then env.block - s.block else 0;
            var factor := DecayFactor(c.k, blocks, env.slowFactor);
            var fee := NewDecayingFee(c, s, env, close, far, below);
            && (far - target) * 100 <= close * c.targetMultiplier < (far - target + 1) * 100
            && StartsFrom(c, s, env.price, far, start)
            && (if blocks > 4 then factor == env.slowFactor else
                  factor * Pow2(24 * blocks) <= Power(c.k, blocks) * Pow2(24) < (factor + 1) * Pow2(24 * blocks))
            && (fee - target) * Pow2(24) <= factor * (from - target) < (fee - target + 1) * Pow2(24)
  {
    hide Div, Pow2, PriceRatio, CloseBoundaryFee, FarBoundaryFee, AdjustedFee, DecayFactor, Accepted;
    AcceptedParts(c);
    var ratio := PriceRatio(env.price, c.reference);
    var (close, far) := (CloseBoundaryFee(ratio, c.optimalFee), FarBoundaryFee(ratio, c.optimalFee));
    OpeningFactor(c.k, Max(env.block - s.block, 0), env.slowFactor);
    MulNonNegative(close, c.targetMultiplier);
    FloorBounds(close * c.targetMultiplier, MAX_TARGET_MULTIPLIER);
    RatioBounds(env.price, s.price);
    if s.decayingFee <= E12 {
      AdjustedPinned(PriceRatio(env.price, s.price), s.decayingFee);
    }
    var target := TargetFee(c, close, far);
    var from := Max(StartFee(c, s, env.price, far, env.price < c.reference), target);
    var factor := DecayFactor(c.k, Max(env.block - s.block, 0), env.slowFactor);
    MulNonNegative(factor, from - target);
    Q24Is();
    Q24Positive();
    FloorBounds(factor * (from - target), Q24);
  }

  lemma OpeningFactor(k: nat, blocks: nat, slowFactor: nat)
    ensures var factor := DecayFactor(k, blocks, slowFactor);
            if blocks > 4 then factor == slowFactor else
              factor * Pow2(24 * blocks) <= Power(k, blocks) * Pow2(24) < (factor + 1) * Pow2(24 * blocks)
  {
    hide Pow2, Div, Power;
    if blocks <= 4 {
      FastFactorExact(k, blocks, slowFactor);
      Q24Is();
    }
  }

  lemma Q24Positive()
    ensures Pow2(24) > 0
  {
  }

  /** Between start and target, both at most one: the decaying fee of a block opened outside the range. */
  lemma NewFeeBetween(c: Config, s: State, env: Env)
    requires Accepted(c) && s.decayingFee <= UNDEFINED && Usable(env)
    requires CloseBoundaryFee(PriceRatio(env.price, c.reference), c.optimalFee) > 0
    ensures var ratio := PriceRatio(env.price, c.reference);
            var (close, far) := (CloseBoundaryFee(ratio, c.optimalFee), FarBoundaryFee(ratio, c.optimalFee));
            var below := env.price < c.reference;
            var target := TargetFee(c, close, far);
            var start := StartFee(c, s, env.price, far, below);
            && 0 <= far - close <= target <= far <= E12
            && 0 <= start <= E12
            && target <= NewDecayingFee(c, s, env, close, far, below) <= Max(start, target)
  {
    hide Div, Pow2, PriceRatio, CloseBoundaryFee, FarBoundaryFee, AdjustedFee, Decayed, DecayFactor;
    var ratio := PriceRatio(env.price, c.reference);
    var (close, far) := (CloseBoundaryFee(ratio, c.optimalFee), FarBoundaryFee(ratio, c.optimalFee));
    RatioBounds(env.price, c.reference);
    RatioBounds(env.price, s.price);
    BoundaryFees(ratio, c.optimalFee);
    if s.decayingFee <= E12 {
      AdjustedPinned(PriceRatio(env.price, s.price), s.decayingFee);
    }
    var below := env.price < c.reference;
    MulNonNegative(close, c.targetMultiplier);
    MulMono(c.targetMultiplier, MAX_TARGET_MULTIPLIER, close);
    FloorAtLeast(close * c.targetMultiplier, MAX_TARGET_MULTIPLIER, 0);
    FloorAtLeast(close * c.targetMultiplier, MAX_TARGET_MULTIPLIER, close + 1);
    var target := TargetFee(c, close, far);
    var start := Max(StartFee(c, s, env.price, far, below), target);
    var factor := DecayFactor(c.k, Max(env.block - s.block, 0), env.slowFactor);
    FactorAtMostOne(c, Max(env.block - s.block, 0), env.slowFactor);
    DecayedBetween(target, start, factor, factor);
  }

  /** The charged fee lies within the fee to store, and that one within its range, from every state in range. */
  lemma FeesInRange(c: Config, s: State, env: Env, zeroForOne: bool)
    requires Accepted(c) && s.decayingFee <= UNDEFINED && Usable(env)
    ensures var (fee, decaying) := GetFee(c, s, env, PriceUsed(s, env), Opens(s, env), zeroForOne);
            && 0 <= fee <= decaying <= UNDEFINED
  {
    hide Div, Pow2, PriceRatio, CloseBoundaryFee, FarBoundaryFee, InsideFee, NewDecayingFee, Accepted;
    AcceptedParts(c);
    var price := PriceUsed(s, env);
    var ratio := PriceRatio(price, c.reference);
    RatioBounds(price, c.reference);
    InsideMeans(ratio, c.optimalFee);
    if CloseBoundaryFee(ratio, c.optimalFee) <= 0 {
      InsidePinned(ratio, c.optimalFee, price < c.reference, zeroForOne);
    } else if Opens(s, env) {
      NewFeeBetween(c, s, env);
    }
  }

  lemma AcceptedParts(c: Config)
    requires Accepted(c)
    ensures 0 < c.k < Q24 && c.optimalFee <= MAX_OPTIMAL_FEE && c.targetMultiplier <= MAX_TARGET_MULTIPLIER
  {
  }

  // ------------------------------------------------------------------- calls

  /**
    The price a swap effectively trades at stands on the boundary it moves
    towards, by less than one unit: ratio and 1 - fee multiply to 1 - optimalFee
    for a swap away from the reference, and are in that proportion towards it.
  */
  predicate OnBoundary(fee: int, ratio: nat, optimalFee: nat, away: bool) {
    var boundary := E12 * (1_000_000 - optimalFee);
    if away then
      (E12 - fee) * 1_000_000 * ratio <= boundary * Pow2(96) < (E12 - fee + 1) * 1_000_000 * ratio
    else
      (E12 - fee) * 1_000_000 * Pow2(96) <= boundary * ratio < (E12 - fee + 1) * 1_000_000 * Pow2(96)
  }

  /**
    A whole call: which price it looks at, the fee by the price's place in or
    outside the range, the fee in pips rounded up and capped, and the new state.
  */
  lemma CallExact(c: Config, s: State, env: Env, zeroForOne: bool)
    requires Accepted(c) && s.decayingFee <= UNDEFINED && Usable(env)
    ensures var opens := env.block > s.block || s.price == 0;
            var price := if opens then env.price else s.price;
            var ratio := PriceRatio(price, c.reference);
            var inside := Pow2(96) * (1_000_000 - c.optimalFee) <= ratio * 1_000_000;
            var away := (zeroForOne && price < c.reference) || (!zeroForOne && price >= c.reference);
            var (fee, decaying) := GetFee(c, s, env, price, opens, zeroForOne);
            var (pips, s') := BeforeSwap(c, s, env, zeroForOne);
            && (inside ==> decaying == UNDEFINED && OnBoundary(fee, ratio, c.optimalFee, away))
            && (!inside ==> fee == if away then 0 else decaying)
            && (!inside && !opens ==> decaying == s.decayingFee)
            && (!inside && opens ==>
                  CloseBoundaryFee(ratio, c.optimalFee) > 0
                  && decaying == NewDecayingFee(c, s, env, CloseBoundaryFee(ratio, c.optimalFee),
                                                FarBoundaryFee(ratio, c.optimalFee), price < c.reference))
            && (if fee <= 999_998 * 1_000_000 then fee <= pips * 1_000_000 < fee + 1_000_000 else pips == 999_998)
            && s' == if opens then State(decaying, env.price, env.block) else s
  {
    hide Div, CeilDiv, Pow2, PriceRatio, CloseBoundaryFee, FarBoundaryFee, InsideFee, NewDecayingFee, Accepted, ToPips;
    AcceptedParts(c);
    FeesInRange(c, s, env, zeroForOne);
    var price := PriceUsed(s, env);
    var ratio := PriceRatio(price, c.reference);
    RatioBounds(price, c.reference);
    InsideMeans(ratio, c.optimalFee);
    if CloseBoundaryFee(ratio, c.optimalFee) <= 0 {
      InsidePinned(ratio, c.optimalFee, price < c.reference, zeroForOne);
    }
    PipsExact(GetFee(c, s, env, price, Opens(s, env), zeroForOne).0);
  }

  lemma PipsExact(fee: nat)
    ensures if fee <= 999_998 * 1_000_000 then fee <= ToPips(fee) * 1_000_000 < fee + 1_000_000
            else ToPips(fee) == 999_998
  {
    hide CeilDiv;
    CeilBounds(fee, E6);
    CeilAtMost(fee, E6, MAX_FEE_E6);
  }

  /** A stored price and a stored fee agree on whether the price is inside the range. */
  predicate Consistent(c: Config, s: State)
    requires c.optimalFee <= MAX_OPTIMAL_FEE
  {
    && s.decayingFee <= UNDEFINED
    && (s.price > 0 ==>
          (s.decayingFee == UNDEFINED <==> CloseBoundaryFee(PriceRatio(s.price, c.reference), c.optimalFee) <= 0))
  }

  /** Outside the range only swaps back towards the reference pay; fees are fractions, the state stays consistent. */
  lemma CallSound(c: Config, s: State, env: Env, zeroForOne: bool)
    requires Accepted(c) && Usable(env) && Consistent(c, s)
    ensures var price := PriceUsed(s, env);
            var (fee, decaying) := GetFee(c, s, env, price, Opens(s, env), zeroForOne);
            var outside := CloseBoundaryFee(PriceRatio(price, c.reference), c.optimalFee) > 0;
            && 0 <= fee <= E12
            && (outside && (price < c.reference) == zeroForOne ==> fee == 0)
            && (outside && (price < c.reference) != zeroForOne ==> fee == decaying)
    ensures var (pips, s') := BeforeSwap(c, s, env, zeroForOne);
            Consistent(c, s') && s'.price > 0 && s'.block >= env.block && pips <= MAX_FEE_E6
  {
    hide Div, CeilDiv, Pow2, PriceRatio, CloseBoundaryFee, FarBoundaryFee, InsideFee, NewDecayingFee, Accepted;
    AcceptedParts(c);
    FeesInRange(c, s, env, zeroForOne);
    var price := PriceUsed(s, env);
    var ratio := PriceRatio(price, c.reference);
    RatioBounds(price, c.reference);
    InsideMeans(ratio, c.optimalFee);
    if CloseBoundaryFee(ratio, c.optimalFee) <= 0 {
      InsidePinned(ratio, c.optimalFee, price < c.reference, zeroForOne);
    } else if Opens(s, env) {
      NewFeeBetween(c, s, env);
    }
  }

  /**
    A block's first call settles its fees: any later call of the same block,
    at whatever price the pool then has, writes nothing and is charged what the
    first call would have been charged in its direction.
  */
  lemma LaterCall(c: Config, s: State, first: Env, zeroForOne: bool, later: Env, direction: bool)
    requires Accepted(c) && Usable(first) && Usable(later) && Consistent(c, s)
    requires later.block == first.block
    ensures var s' := BeforeSwap(c, s, first, zeroForOne).1;
            && s'.decayingFee <= UNDEFINED
            && BeforeSwap(c, s', later, direction) == (BeforeSwap(c, s, first, direction).0, s')
  {
    hide Div, CeilDiv, Pow2, PriceRatio, CloseBoundaryFee, FarBoundaryFee, InsideFee, NewDecayingFee, Accepted, ToPips;
    AcceptedParts(c);
    CallSound(c, s, first, zeroForOne);
    CallSound(c, s, first, direction);
  }

  datatype Call = Call(env: Env, zeroForOne: bool)

  /** The state after, and the fees charged by, a sequence of calls. */
  function RunCalls(c: Config, s: State, calls: seq<Call>): (r: (seq<nat>, State))
    requires Accepted(c) && s.decayingFee <= UNDEFINED && forall i :: 0 <= i < |calls| ==> Usable(calls[i].env)
    ensures |r.0| == |calls|
    decreases |calls|
  {
    if calls == [] then ([], s)
    else
      var (fee, s') := BeforeSwap(c, s, calls[0].env, calls[0].zeroForOne);
      var (fees, last) := RunCalls(c, s', calls[1..]);
      ([fee] + fees, last)
  }

  predicate SameTerms(calls: seq<Call>, i: nat, j: nat)
    requires i < |calls| && j < |calls|
  {
    calls[i].env.block == calls[j].env.block && calls[i].zeroForOne == calls[j].zeroForOne
  }

  /** Calls of the same block in the same direction are charged the same. */
  predicate OneFee(calls: seq<Call>, fees: seq<nat>)
    requires |calls| == |fees|
  {
    forall i, j :: 0 <= i < j < |calls| && SameTerms(calls, i, j) ==> fees[i] == fees[j]
  }

  predicate BlocksAscend(calls: seq<Call>) {
    forall i, j :: 0 <= i <= j < |calls| ==> calls[i].env.block <= calls[j].env.block
  }

  /** Every call of the block leaves the state alone, and is charged the fee if it goes the given way. */
  ghost predicate Settled(c: Config, s: State, block: nat, direction: bool, fee: nat)
    requires Accepted(c) && s.decayingFee <= UNDEFINED
  {
    forall env: Env, d: bool :: Usable(env) && env.block == block ==>
      BeforeSwap(c, s, env, d).1 == s && (d == direction ==> BeforeSwap(c, s, env, d).0 == fee)
  }

  lemma LaterCalls(c: Config, s: State, env: Env, direction: bool)
    requires Accepted(c) && Usable(env) && Consistent(c, s)
    ensures var (fee, s') := BeforeSwap(c, s, env, direction);
            Settled(c, s', env.block, direction, fee)
  {
    hide BeforeSwap, Accepted;
    assert s.decayingFee <= UNDEFINED;
    var (fee, s') := BeforeSwap(c, s, env, direction);
    forall later: Env, d: bool {:trigger BeforeSwap(c, s', later, d)} | Usable(later) && later.block == env.block
      ensures BeforeSwap(c, s', later, d).1 == s' && (d == direction ==> BeforeSwap(c, s', later, d).0 == fee)
    {
      LaterCall(c, s, env, direction, later, d);
    }
  }

  lemma {:induction false} SettledFee(c: Config, s: State, block: nat, direction: bool, fee: nat,
                                      calls: seq<Call>, j: nat)
    requires Accepted(c) && s.decayingFee <= UNDEFINED && Settled(c, s, block, direction, fee)
    requires j < |calls| && forall i :: 0 <= i < |calls| ==> Usable(calls[i].env)
    requires forall i :: 0 <= i <= j ==> calls[i].env.block == block
    requires calls[j].zeroForOne == direction
    ensures RunCalls(c, s, calls).0[j] == fee
  {
    hide BeforeSwap, Accepted;
    if j > 0 {
      SettledFee(c, s, block, direction, fee, calls[1..], j - 1);
    }
  }

  /** Over any run from a consistent state: fees stay below 100%, and every block has one fee per direction. */
  lemma {:induction false} OneFeePerBlock(c: Config, s: State, calls: seq<Call>)
    requires Accepted(c) && Consistent(c, s) && BlocksAscend(calls)
    requires forall i :: 0 <= i < |calls| ==> Usable(calls[i].env)
    ensures var (fees, last) := RunCalls(c, s, calls);
            && Consistent(c, last)
            && (forall i :: 0 <= i < |calls| ==> fees[i] <= MAX_FEE_E6)
            && OneFee(calls, fees)
    decreases |calls|
  {
    hide BeforeSwap, Accepted, Settled;
    if calls != [] {
      var (env, direction) := (calls[0].env, calls[0].zeroForOne);
      CallSound(c, s, env, direction);
      var (fee, s') := BeforeSwap(c, s, env, direction);
      OneFeePerBlock(c, s', calls[1..]);
      LaterCalls(c, s, env, direction);
      forall j | 0 < j < |calls| && SameTerms(calls, 0, j)
        ensures RunCalls(c, s', calls[1..]).0[j - 1] == fee
      {
        SettledFee(c, s', env.block, direction, fee, calls[1..], j - 1);
      }
      FirstFee(calls, fee, RunCalls(c, s', calls[1..]).0);
    }
  }

  lemma FirstFee(calls: seq<Call>, fee: nat, rest: seq<nat>)
    requires |calls| == |rest| + 1 && OneFee(calls[1..], rest)
    requires forall j :: 0 < j < |calls| && SameTerms(calls, 0, j) ==> rest[j - 1] == fee
    ensures OneFee(calls, [fee] + rest)
  {
    forall i, j | 0 <= i < j < |calls| && SameTerms(calls, i, j)
      ensures ([fee] + rest)[i] == ([fee] + rest)[j]
    {
      if i > 0 {
        assert SameTerms(calls[1..], i - 1, j - 1);
      }
    }
  }

  // --------------------------------------------------------- configurations

  /** An accepted reference keeps both ends of its optimal range inside the protocol's price range. */
  lemma AcceptedRangeInBounds(c: Config)
    requires Accepted(c)
    ensures var square := c.reference * c.reference;
            && MIN_SQRT_PRICE * MIN_SQRT_PRICE * E6 <= square * (E6 - c.optimalFee)
            && square * E6 <= MAX_SQRT_PRICE * MAX_SQRT_PRICE * (E6 - c.optimalFee)
    ensures IsPrice(c.reference)
  {
    hide Div, CeilDiv;
    var r := c.reference;
    CeilAtMost(MIN_SQRT_PRICE * E6, ROOT, r);
    FloorAtLeast(MAX_SQRT_PRICE * ROOT, E6, r);
    RootedLower(MIN_SQRT_PRICE, r, E6 - c.optimalFee);
    RootedUpper(MAX_SQRT_PRICE, r, E6 - c.optimalFee);
  }

  /** Exactly which configurations are accepted; ROOT is the integer square root of 1 - 1% in units of 1e-6. */
  lemma AcceptedExactly(c: Config)
    ensures Accepted(c) <==>
              && 0 < c.k < Pow2(24) && c.optimalFee <= 10_000 && c.targetMultiplier <= 100
              && MIN_SQRT_PRICE * 1_000_000 <= c.reference * ROOT
              && (c.reference + 1) * 1_000_000 <= MAX_SQRT_PRICE * ROOT
    ensures ROOT * ROOT <= 990_000 * 1_000_000 < (ROOT + 1) * (ROOT + 1)
  {
    hide Div, CeilDiv, Pow2;
    Q24Is();
    CeilAtMost(MIN_SQRT_PRICE * E6, ROOT, c.reference);
    FloorAtLeast(MAX_SQRT_PRICE * ROOT, E6, c.reference + 1);
  }

  lemma RootedLower(low: nat, r: nat, m: nat)
    requires low * E6 <= r * ROOT && E6 - MAX_OPTIMAL_FEE <= m
    ensures low * low * E6 <= r * r * m
  {
    MulMono2(low * E6, r * ROOT, low * E6, r * ROOT);
    SquareOfProduct(low, E6);
    SquareOfProduct(r, ROOT);
    MulNonNegative(r, r);
    MulMono(ROOT * ROOT, (E6 - MAX_OPTIMAL_FEE) * E6, r * r);
    MulMono(E6 - MAX_OPTIMAL_FEE, m, r * r);
  }

  lemma RootedUpper(high: nat, r: nat, m: nat)
    requires r * E6 <= high * ROOT && E6 - MAX_OPTIMAL_FEE <= m
    ensures r * r * E6 <= high * high * m
  {
    MulMono2(r * E6, high * ROOT, r * E6, high * ROOT);
    SquareOfProduct(r, E6);
    SquareOfProduct(high, ROOT);
    MulNonNegative(high, high);
    MulMono(ROOT * ROOT, (E6 - MAX_OPTIMAL_FEE) * E6, high * high);
    MulMono(E6 - MAX_OPTIMAL_FEE, m, high * high);
  }

  /** What the fee calls inside really is: the prices differ by no more than the optimal fee allows. */
  lemma InsideIsNear(price: Price, reference: nat, o: nat)
    requires o <= MAX_OPTIMAL_FEE && reference > 0
    requires CloseBoundaryFee(PriceRatio(price, reference), o) <= 0
    ensures var (lo, hi) := (Min(price, reference), Max(price, reference));
            hi * hi * (E6 - o) <= lo * lo * E6
  {
    hide Pow2, PriceRatio, CloseBoundaryFee;
    Q48Squared();
    var ratio := PriceRatio(price, reference);
    InsideMeans(ratio, o);
    RatioBelowQuotient(price, reference);
    var (lo, hi) := (Min(price, reference), Max(price, reference));
    NearProducts(ratio, lo * lo, hi * hi, E6 - o, Pow2(96));
  }

  lemma NearProducts(ratio: nat, x: int, y: int, m: int, q: int)
    requires q > 0 && y >= 0 && ratio * y <= q * x && q * m <= ratio * E6
    ensures y * m <= x * E6
  {
    MulMono(q * m, ratio * E6, y);
    assert q * m * y == (y * m) * q && ratio * E6 * y == ratio * y * E6 && q * x * E6 == (x * E6) * q;
    MulCancelLe(y * m, x * E6, q);
  }

  /** Waiting one more block, up to four, never raises the fee a block opens with. */
  lemma WaitingLowersFee(c: Config, s: State, env: Env)
    requires Accepted(c) && s.decayingFee <= UNDEFINED && Usable(env)
    requires s.block <= env.block < s.block + 4
    requires CloseBoundaryFee(PriceRatio(env.price, c.reference), c.optimalFee) > 0
    ensures var ratio := PriceRatio(env.price, c.reference);
            var (close, far) := (CloseBoundaryFee(ratio, c.optimalFee), FarBoundaryFee(ratio, c.optimalFee));
            var below := env.price < c.reference;
            NewDecayingFee(c, s, env.(block := env.block + 1), close, far, below)
            <= NewDecayingFee(c, s, env, close, far, below)
  {
    hide Div, Pow2, PriceRatio, CloseBoundaryFee, FarBoundaryFee, AdjustedFee, Decayed, DecayFactor, StartFee,
         TargetFee;
    var ratio := PriceRatio(env.price, c.reference);
    var (close, far) := (CloseBoundaryFee(ratio, c.optimalFee), FarBoundaryFee(ratio, c.optimalFee));
    var below := env.price < c.reference;
    var target := TargetFee(c, close, far);
    var start := Max(StartFee(c, s, env.price, far, below), target);
    var blocks := env.block - s.block;
    FactorShrinks(c.k, blocks, env.slowFactor);
    DecayedBetween(target, start, DecayFactor(c.k, blocks, env.slowFactor),
                   DecayFactor(c.k, blocks + 1, env.slowFactor));
  }

  // -------------------------------------------------------------- the hook

  class StablePairHook {
    const config: Config
    var state: State

    constructor (config: Config, state: State)
      ensures this.config == config && this.state == state
    {
      this.config := config;
      this.state := state;
    }

    /** `before_swap_fee`: the fee in pips; the state is replaced by the first call of a block only. */
    method BeforeSwapFee(env: Env, zeroForOne: bool) returns (fee: nat)
      requires Accepted(config) && state.decayingFee <= UNDEFINED && Usable(env)
      modifies this`state
      ensures (fee, state) == BeforeSwap(config, old(state), env, zeroForOne)
      ensures state.decayingFee <= UNDEFINED
    {
      hide GetFee, Accepted, ToPips;
      FeesInRange(config, state, env, zeroForOne);
      var isNewBlock := env.block > state.block || state.price == 0;
      var price := if isNewBlock then env.price else state.price;
      var (lpFee, decayingFee) := GetFee(config, state, env, price, isNewBlock, zeroForOne);
      if isNewBlock {
        state := State(decayingFee, price, env.block);
      }
      fee := ToPips(lpFee);
    }
  }

  /** `new`: refused iff the configuration is. */
  method TryNew(config: Config, state: State) returns (r: Option<StablePairHook>)
    ensures r.Some? <==> Accepted(config)
    ensures r.Some? ==> fresh(r.value) && r.value.config == config && r.value.state == state
  {
    if !Accepted(config) {
      return None;
    }
    var hook := new StablePairHook(config, state);
    r := Some(hook);
  }
}
