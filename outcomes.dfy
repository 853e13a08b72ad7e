/**
  Error results of the cryptographic core. Where libtommath reports an
  error code, the code prints a message and exits the process; here each such
  exit is a distinguishable `Err` value instead.
 */
module Outcomes {

  /** The library failures that the core can reach. */
  datatype Error =
    | InvalidModulus   // mp_exptmod refuses a modulus that is not positive (MP_VAL)
    | BufferTooSmall   // mp_to_ubin refuses a value whose encoding exceeds maxlen (MP_BUF)

  datatype Result<T> = Ok(value: T) | Err(error: Error)
}
