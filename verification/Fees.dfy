/**
  LP and protocol fees: src/core/types/fee/protocol_fee.rs, swap_fee.rs and the
  protocol split of a swap step.
*/
module Fees {
  import opened Arith
  import opened Words
  import opened Wrappers
  import opened SwapMath

  const MAX_PROTOCOL_FEE: nat := 1_000

  /** Directional protocol fees in pips. */
  datatype ProtocolFee = ProtocolFee(zeroForOne: nat, oneForZero: nat) {
    function Pips(direction: bool): nat {
      if direction then zeroForOne else oneForZero
    }

    predicate IsValid() {
      zeroForOne <= MAX_PROTOCOL_FEE && oneForZero <= MAX_PROTOCOL_FEE
    }

    /** The effective fee: both fees less their floored overlap. */
    function CalculateSwapFee(direction: bool, lpFee: nat): Result<Fee> {
      if lpFee > MAX_FEE then Err(InvalidLpFee)
      else
        var protocolFee := Pips(direction);
        if protocolFee == 0 then Ok(lpFee)
        else
          MulNonNegative(protocolFee, lpFee);
          var combined := protocolFee + lpFee - Div(protocolFee * lpFee, MAX_FEE);
          if 0 <= combined <= MAX_FEE then Ok(combined) else Err(FeeTooLarge)
    }
  }

  /** With a resolved LP fee the combined fee exists, is at least either part and at most 100%. */
  lemma CombinedFeeBounds(protocolFee: ProtocolFee, direction: bool, lpFee: nat)
    requires protocolFee.IsValid() && lpFee <= MAX_FEE
    ensures var r := protocolFee.CalculateSwapFee(direction, lpFee);
            r.Ok? && protocolFee.Pips(direction) <= r.value <= MAX_FEE && lpFee <= r.value
  {
    hide Div;
    var p := protocolFee.Pips(direction);
    MulNonNegative(p, lpFee);
    var x := Div(p * lpFee, MAX_FEE);
    FloorBounds(p * lpFee, MAX_FEE);
    MulMono(p, MAX_FEE, lpFee);
    MulMono(lpFee, MAX_FEE, p);
    MulCancelLe(x, lpFee, MAX_FEE);
    MulCancelLe(x, p, MAX_FEE);
    OverlapIdentity(p, lpFee, MAX_FEE);
    MulCancel(p + lpFee - MAX_FEE, x + 1, MAX_FEE);
  }

  /** The fee pips of one direction, by name. */
  function DirectionalPips(protocolFee: ProtocolFee, direction: bool): nat {
    if direction then protocolFee.zeroForOne else protocolFee.oneForZero
  }

  /** A fee of r leaves what lp leaves of what p leaves, rounded down: the LP fee is charged after the protocol's. */
  predicate ChargedAfter(p: int, lp: int, r: int) {
    (MAX_FEE - r) * MAX_FEE <= (MAX_FEE - p) * (MAX_FEE - lp) < (MAX_FEE - r + 1) * MAX_FEE
  }

  /** The combined fee charges the LP fee on what the protocol fee of its direction leaves. */
  lemma CombinedFeeExact(protocolFee: ProtocolFee, direction: bool, lpFee: nat)
    requires protocolFee.IsValid() && lpFee <= MAX_FEE
    ensures var r := protocolFee.CalculateSwapFee(direction, lpFee);
            r.Ok? && ChargedAfter(DirectionalPips(protocolFee, direction), lpFee, r.value)
  {
    hide Div;
    CombinedFeeBounds(protocolFee, direction, lpFee);
    var p := protocolFee.Pips(direction);
    MulNonNegative(p, lpFee);
    var x := Div(p * lpFee, MAX_FEE);
    FloorBounds(p * lpFee, MAX_FEE);
    CombinedIdentity(p, lpFee, x, MAX_FEE);
    if p == 0 {
      CombinedIdentity(0, lpFee, 0, MAX_FEE);
    }
  }

  lemma CombinedIdentity(p: int, f: int, x: int, m: int)
    ensures (m - p) * (m - f) == (m - (p + f - x)) * m + p * f - x * m
    ensures (m - (p + f - x) + 1) * m == (m - (p + f - x)) * m + m
    ensures 0 * f == 0
  {
    assert (m - p) * (m - f) == m * m - p * m - f * m + p * f;
  }

  /** Both cached fees of a valid configuration are the exact combinations of their own direction. */
  lemma CachedFeesExact(fee: SwapFee)
    requires fee.Valid() && fee.lpFee.Some?
    ensures ChargedAfter(fee.protocolFee.zeroForOne, fee.lpFee.value, fee.EffectiveFee(true))
    ensures ChargedAfter(fee.protocolFee.oneForZero, fee.lpFee.value, fee.EffectiveFee(false))
  {
    CombinedFeeExact(fee.protocolFee, true, fee.lpFee.value);
    CombinedFeeExact(fee.protocolFee, false, fee.lpFee.value);
  }

  lemma OverlapIdentity(p: int, f: int, m: int)
    requires p <= m && f <= m
    ensures (p + f - m) * m <= p * f
  {
    MulNonNegative(m - p, m - f);
    assert (m - p) * (m - f) == m * m - p * m - f * m + p * f;
  }

  /** LP fee, protocol fees and the cached effective fee of each direction. */
  datatype SwapFee = SwapFee(lpFee: Option<nat>, protocolFee: ProtocolFee, zeroForOneFee: Fee, oneForZeroFee: Fee) {
    function EffectiveFee(direction: bool): Fee {
      if direction then zeroForOneFee else oneForZeroFee
    }

    /** The caches agree with the fee formula; an unresolved LP fee charges nothing. */
    predicate Valid() {
      && protocolFee.IsValid()
      && (lpFee.Some? ==>
            lpFee.value <= MAX_FEE
            && protocolFee.CalculateSwapFee(true, lpFee.value) == Ok(zeroForOneFee)
            && protocolFee.CalculateSwapFee(false, lpFee.value) == Ok(oneForZeroFee))
      && (lpFee.None? ==> zeroForOneFee == 0 && oneForZeroFee == 0)
    }

    /** `from_lp_fee`: the caches recomputed from an LP fee and protocol fees. */
    static function FromLpFee(lpFee: Option<nat>, protocolFee: ProtocolFee): Result<SwapFee> {
      if lpFee.None? then Ok(SwapFee(None, protocolFee, 0, 0))
      else
        var down :- protocolFee.CalculateSwapFee(true, lpFee.value);
        var up :- protocolFee.CalculateSwapFee(false, lpFee.value);
        Ok(SwapFee(lpFee, protocolFee, down, up))
    }

    /** `set_lp_fee`; on an error the caller keeps the old value. */
    function SetLpFee(newFee: nat): Result<SwapFee> {
      if lpFee == Some(newFee) then Ok(this)
      else
        var down :- protocolFee.CalculateSwapFee(true, newFee);
        var up :- protocolFee.CalculateSwapFee(false, newFee);
        Ok(SwapFee(Some(newFee), protocolFee, down, up))
    }

    /** `set_protocol_fee`. */
    function SetProtocolFee(newFee: ProtocolFee): Result<SwapFee> {
      if protocolFee == newFee then Ok(this)
      else if lpFee.None? then Ok(SwapFee(None, newFee, 0, 0))
      else
        var down :- newFee.CalculateSwapFee(true, lpFee.value);
        var up :- newFee.CalculateSwapFee(false, lpFee.value);
        Ok(SwapFee(lpFee, newFee, down, up))
    }
  }

  /** Setters keep the caches right; with valid fees they only refuse an LP fee above 100%. */
  lemma SettersKeepCaches(fee: SwapFee, newLp: nat, newProtocol: ProtocolFee)
    requires fee.Valid() && newProtocol.IsValid()
    ensures fee.SetLpFee(newLp).Ok? <==> newLp <= MAX_FEE
    ensures newLp <= MAX_FEE ==> fee.SetLpFee(newLp).value.Valid()
                                 && fee.SetLpFee(newLp).value.lpFee == Some(newLp)
                                 && fee.SetLpFee(newLp).value.protocolFee == fee.protocolFee
    ensures fee.SetProtocolFee(newProtocol).Ok?
    ensures fee.SetProtocolFee(newProtocol).value.Valid()
    ensures fee.SetProtocolFee(newProtocol).value.protocolFee == newProtocol
    ensures fee.SetProtocolFee(newProtocol).value.lpFee == fee.lpFee
  {
    if newLp <= MAX_FEE {
      CombinedFeeBounds(fee.protocolFee, true, newLp);
      CombinedFeeBounds(fee.protocolFee, false, newLp);
    }
    if fee.lpFee.Some? {
      CombinedFeeBounds(newProtocol, true, fee.lpFee.value);
      CombinedFeeBounds(newProtocol, false, fee.lpFee.value);
    }
  }

  /** Rebuilding from the stored parts gives back a fee configuration whose caches are right. */
  lemma RebuiltFee(fee: SwapFee)
    requires fee.Valid()
    ensures SwapFee.FromLpFee(fee.lpFee, fee.protocolFee) == Ok(fee)
  {
  }

  /** The effective fee is never below the protocol fee once the LP fee is resolved. */
  lemma EffectiveFeeCoversProtocol(fee: SwapFee, direction: bool)
    requires fee.Valid() && fee.lpFee.Some?
    ensures fee.protocolFee.Pips(direction) <= fee.EffectiveFee(direction)
  {
    CombinedFeeBounds(fee.protocolFee, direction, fee.lpFee.value);
  }

  /** The protocol's share of a step and what is left for liquidity providers. */
  function ProtocolSplit(amountIn: nat, feeAmount: nat, feePips: nat, protocolPips: nat): Result<(nat, nat)> {
    if protocolPips == 0 then Ok((feeAmount, 0))
    else
      var cut :- ProtocolCut(amountIn, feeAmount, feePips, protocolPips);
      if feeAmount < cut then Err(AmountOverflow) else Ok((feeAmount - cut, cut))
  }

  function ProtocolCut(amountIn: nat, feeAmount: nat, feePips: nat, protocolPips: nat): Result<nat> {
    if feePips == protocolPips then Ok(feeAmount)
    else if amountIn + feeAmount >= W256 then Err(AmountOverflow)
    else
      MulNonNegative(amountIn + feeAmount, protocolPips);
      if (amountIn + feeAmount) * protocolPips >= W256 then Err(AmountOverflow)
      else Ok(Div((amountIn + feeAmount) * protocolPips, MAX_FEE))
  }

  /**
    The split is exact, and on a sound step whose fee covers the protocol fee
    the cut never exceeds the fee: the only errors left are the two width checks.
  */
  lemma ProtocolSplitSound(amountIn: nat, feeAmount: nat, feePips: Fee, protocolPips: nat)
    requires amountIn * feePips <= feeAmount * (MAX_FEE - feePips) && protocolPips <= feePips
    ensures var r := ProtocolSplit(amountIn, feeAmount, feePips, protocolPips);
            && (r.Ok? ==> r.value.0 + r.value.1 == feeAmount)
            && (r.Err? ==> (amountIn + feeAmount) * protocolPips >= W256 || amountIn + feeAmount >= W256)
  {
    hide Div;
    var total := amountIn + feeAmount;
    MulNonNegative(total, protocolPips);
    FeeShare(amountIn, feeAmount, feePips, MAX_FEE);
    MulMono(protocolPips, feePips, total);
    FloorBounds(total * protocolPips, MAX_FEE);
    var cut := Div(total * protocolPips, MAX_FEE);
    MulCancelLe(cut, feeAmount, MAX_FEE);
  }

  /**
    The protocol's share, exactly: nothing without a protocol fee, the whole fee
    when it is nothing but a protocol fee, and otherwise the floored pips of
    everything paid.
  */
  lemma ProtocolShareExact(amountIn: nat, feeAmount: nat, feePips: nat, protocolPips: nat)
    ensures var r := ProtocolSplit(amountIn, feeAmount, feePips, protocolPips);
            r.Ok? ==>
              && r.value.0 + r.value.1 == feeAmount
              && (protocolPips == 0 ==> r.value.1 == 0)
              && (protocolPips != 0 && protocolPips == feePips ==> r.value.1 == feeAmount)
              && (protocolPips != 0 && protocolPips != feePips ==>
                    r.value.1 * MAX_FEE <= (amountIn + feeAmount) * protocolPips < (r.value.1 + 1) * MAX_FEE)
  {
    hide Div;
    MulNonNegative(amountIn + feeAmount, protocolPips);
    FloorBounds((amountIn + feeAmount) * protocolPips, MAX_FEE);
  }
}
