/** Error codes and the failure-compatible results shared by every module. */
module Wrappers {

  datatype Option<+T> = None | Some(value: T)

  /** The reason codes of src/core/error.rs that the modelled operations return. */
  datatype Error =
    | ZeroDenominator
    | Overflow
    | SignedOverflow
    | I128Overflow
    | PriceOverflow
    | InsufficientToken0Reserves
    | InsufficientToken1Reserves
    | FeeTooLarge
    | InvalidLpFee
    | MaxFeeExactOut
    | InvalidTick
    | InvalidTickSpacing
    | InvalidSqrtPrice
    | PriceLimitAlreadyExceeded
    | InvalidPoolSqrtPrice
    | MissingInitializedTick
    | LiquidityUnderflow
    | LiquidityOverflow
    | AmountOverflow
    | PositionNotFound

  datatype Result<+T> = Ok(value: T) | Err(error: Error) {
    predicate IsFailure() {
      Err?
    }

    function PropagateFailure<U>(): Result<U>
      requires Err?
    {
      Err(error)
    }

    function Extract(): T
      requires Ok?
    {
      value
    }
  }
}
