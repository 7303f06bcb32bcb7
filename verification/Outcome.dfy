/** The failure-compatible result every checked operation of the program returns,
    the errors it can return, and the machine integers its fields are stored in. */
module Outcome {

  datatype Error =
    | Overflow
    | ResultDoesNotFit
    | DivisionByZero
    | InvalidDecimals
    | InvalidBps
    | InvalidVaultState
    | InvalidWithdrawalTicketAccount
    | InvalidAccessProof
    | InvalidTokenAccount
    | InvalidWriteDownAmount
    | InvalidInstructionData
    | InvalidAccountData
    | AccountAlreadyInitialized
    | NotEnoughAccountKeys
    | MissingRequiredSignature
    | TokenProgramFailure
    | UnauthorizedAction
    | VaultPaused
    | DepositsMustBePaused
    | DepositCapExceeded
    | ZeroOutput
    | ZeroSharePrice
    | SlippageExceeded
    | InsufficientShares
    | WithdrawalExceedsEntitlement
    | StaleNavReport
    | ReportTooFrequent
    | NavGainExceedsBound
    | SwapCustodyMoved
    | UnboundAtomicRedeemAccount
    | UnboundDeployAccount
    | DeployAmountMismatch
    | InvalidOp
    | TooManyOps
    | InstructionSliceOutOfBounds
    | AccountIndexOutOfBounds
    | MissingSibling
    | RequiredSiblingMissing
    | MissingInstructionsSysvar
    | InvalidAssetAccount

  datatype Result<+T> = Ok(value: T) | Err(error: Error) {

    predicate IsFailure() {
      Err?
    }

    function PropagateFailure<U>(): Result<U>
      requires Err?
    {
      Err(error)
    }

    function Extract(): T
      requires Ok?
    {
      value
    }
  }

  datatype Option<+T> = None | Some(value: T)

  /** The result of a check: nothing to return when it passes. */
  datatype Unit = Unit

  function Need(condition: bool, error: Error): Result<Unit> {
    if condition then Ok(Unit) else Err(error)
  }

  const U8_MAX := 0xFF
  const U16_MAX := 0xFFFF
  const U32_MAX := 0xFFFF_FFFF
  const U64_MAX := 0xFFFF_FFFF_FFFF_FFFF
  const U128_MAX := 0xFFFF_FFFF_FFFF_FFFF_FFFF_FFFF_FFFF_FFFF
  const I64_MIN := -0x8000_0000_0000_0000
  const I64_MAX := 0x7FFF_FFFF_FFFF_FFFF

  type U8 = n: int | 0 <= n <= U8_MAX
  type U16 = n: int | 0 <= n <= U16_MAX
  type U32 = n: int | 0 <= n <= U32_MAX
  type U64 = n: int | 0 <= n <= U64_MAX
  type U128 = n: int | 0 <= n <= U128_MAX
  type I64 = n: int | I64_MIN <= n <= I64_MAX

  /** `checked_add`, `checked_sub` on u64: the exact value, or an overflow. */
  function CheckedU64(exact: int): Result<U64> {
    if 0 <= exact <= U64_MAX then Ok(exact) else Err(Overflow)
  }

  function CheckedI64(exact: int): Result<I64> {
    if I64_MIN <= exact <= I64_MAX then Ok(exact) else Err(Overflow)
  }

  /** `saturating_sub` on i64. */
  function SaturatingSubI64(a: I64, b: I64): I64 {
    if a - b > I64_MAX then I64_MAX else if a - b < I64_MIN then I64_MIN else a - b
  }

  function Min(a: int, b: int): int {
    if a <= b then a else b
  }

  function Max(a: int, b: int): int {
    if a >= b then a else b
  }
}
