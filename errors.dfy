/**
 * The failures an instruction can end with. `StakingError` is the
 * program's own error enum; `Error` adds the failures raised by the
 * Anchor account checks and by the token program, which abort the
 * transaction in the same way.
 */
module Errors {

  datatype StakingError =
    | InvalidStakeAmount         // "Cannot stake 0 tokens"
    | InvalidUnstakeAmount       // "Cannot unstake 0 tokens"
    | InsufficientStakedAmount
    | InvalidRewardRate
    | ArithmeticOverflow
    | AddressBlacklisted
    | AddressNotBlacklisted
    | CannotBlacklistZeroAddress
    | AddressAlreadyBlacklisted

  datatype Error =
    | Program(code: StakingError)
    | AccountAlreadyInUse     // `init` on an address that already holds an account
    | AccountNotInitialized   // a required account does not exist
    | ConstraintHasOne        // `has_one = admin` does not match the signer
    | ConstraintTokenMint     // `token::mint = ...` does not match
    | ConstraintTokenOwner    // `token::authority = ...` does not match
    | InsufficientFunds       // token transfer larger than the source balance
    | TokenOverflow           // token transfer would overflow the destination

  /** `anchor_lang::Result<T>`; failure-compatible, so `:-` plays the role of `?`. */
  datatype Result<+T> = Ok(value: T) | Err(error: Error) {
    predicate IsFailure() { Err? }
    function PropagateFailure<U>(): Result<U> requires Err? { Err(error) }
    function Extract(): T requires Ok? { value }
  }

  /** `require!(condition, error)`. */
  function Require(condition: bool, error: StakingError): Result<()> {
    if condition then Ok(()) else Err(Program(error))
  }
}
