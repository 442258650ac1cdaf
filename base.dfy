/** Machine integers, fixed-size byte strings, option and result wrappers and
    the error enumerations shared by the rule engine. */
module Base {

  type uint8 = x: int | 0 <= x < 0x100
  type uint64 = x: int | 0 <= x < 0x1_0000_0000_0000_0000

  const INT64_MIN: int := -0x8000_0000_0000_0000
  const INT64_MAX: int := 0x7FFF_FFFF_FFFF_FFFF
  type int64 = x: int | INT64_MIN <= x <= INT64_MAX

  /** A `[u8; 32]`: public keys and Keccak digests. */
  type Bytes32 = s: seq<uint8> | |s| == 32 witness seq(32, _ => 0)
  type Pubkey = Bytes32
  type Hash = Bytes32

  datatype Option<T> = None | Some(value: T)

  datatype Result<T, E> = Success(value: T) | Failure(error: E)

  /** `i64::checked_add`: the sum when it fits in 64 signed bits, `None` otherwise. */
  function CheckedAdd(a: int64, b: int64): Option<int64>
  {
    if INT64_MIN <= a + b <= INT64_MAX then Some(a + b) else None
  }

  /** The variants of the program's `RuleSetError` that the rule engine reports. */
  datatype RuleSetError =
    | NotImplemented
    | AdditionalSignerCheckFailed
    | PubkeyMatchCheckFailed
    | DerivedKeyMatchCheckFailed
    | ProgramOwnedCheckFailed
    | AmountCheckFailed
    | FrequencyCheckFailed
    | PubkeyTreeMatchCheckFailed
    | NumericalOverflow
    | DataTypeMismatch

  /** A runtime error: either a `RuleSetError` converted with `into()`, or an
      error of another origin, identified only by its code. */
  datatype ProgramError = Custom(ruleSetError: RuleSetError) | Other(code: nat)

  /** `ProgramResult`, the runtime's `Result<(), ProgramError>`. */
  datatype ProgramResult = Ok | Err(error: ProgramError)
}
