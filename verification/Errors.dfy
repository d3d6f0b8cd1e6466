/** Option, Result and the error sentinels. Only the sentinel kind of an error is kept. */
module Errors {
  // Operations that fail for reasons outside the program's data.
  datatype FaultKind = Rng | Mlock | Hkdf | Transport | Cancelled

  datatype Error =
    | AuthFailed
    | BadMagic
    | BadVersion
    | ShortData
    | Malformed
    | SlotNotFound
    | NoMethods
    | DekSize
    | KdfParams
    | UnsupportedKdf
    | UnsupportedAead
    | PolicyMismatch
    | PolicyUnsafe
    | InvalidRecoveryCode
    | Destroyed
    | NegativeSize
    | KdfRejected          // scrypt.Key refuses its cost parameters
    | Panicked             // not an error value: the Argon2id library panics
    | KeySize              // chacha20poly1305.New refuses the key length
    | SlotNotConfigured    // the device has no secret in that OTP slot
    | BadResponse          // ykman printed no usable response
    | Fault(kind: FaultKind)

  datatype Option<+T> = None | Some(value: T)

  datatype Result<+T> = Success(value: T) | Failure(error: Error) {
    predicate IsFailure() {
      Failure?
    }

    function PropagateFailure<U>(): Result<U>
      requires Failure?
    {
      Failure(error)
    }

    function Extract(): T
      requires Success?
    {
      value
    }
  }
}
