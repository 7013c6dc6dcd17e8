/** The program's error codes and the result every fallible step returns. */
module Errors {
  import opened FixedPoint

  /** `TokenProgramError`, `NoFreeObligationSlot` and `MissingRefreshReserve` come from the
      programs that are called; the others are the program's own. */
  datatype CushionError =
    | DivisionByZero
    | Overflow
    | CastError
    | ZeroDepositAmount
    | DepositTooSmall
    | DepositCapExceeded
    | ZeroSharesOut
    | MinSharesOutNotMet
    | ZeroMintAmount
    | MaxAssetsInExceeded
    | ZeroRedeemAmount
    | ZeroAssetsOut
    | MinAssetsOutNotMet
    | ZeroWithdrawAmount
    | MaxSharesBurnExceeded
    | InsufficientVaultLiquidity
    | AlreadyInjected
    | NotInjected
    | InjectedCollateral
    | MissingKaminoRefreshReserve
    | LtvCalculationError
    | InsuringThresholdError
    | NotUnsafePosition
    | ZeroPrice
    | InjectCalculationError
    | InterestCalculationError
    | WithdrawAmountCalculationError
    | WithdrawAmountIsZero
    | MarketValueError
    | WithdrawingThresholdError
    | NotYetSafePosition
    | ZeroAmountToSend
    | LiquidationLtvCalculationError
    | NotLiquidable
    | AmountFromMarketValueError
    | ZeroLiquidationAmount
    | LtvComputationError
    | UnsafePosition
    | TokenProgramError
    | NoFreeObligationSlot
    | MissingRefreshReserve

  datatype Result<+T> = Ok(value: T) | Err(error: CushionError) {
    predicate IsFailure() { Err? }

    function PropagateFailure<U>(): Result<U>
      requires Err?
    {
      Err(error)
    }

    function Extract(): T
      requires Ok?
    {
      value
    }
  }

  function OkOr<T>(o: Option<T>, error: CushionError): Result<T> {
    match o
    case None => Err(error)
    case Some(x) => Ok(x)
  }

  function Require(condition: bool, error: CushionError): Result<()> {
    if condition then Ok(()) else Err(error)
  }
}
