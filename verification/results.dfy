/** Options, errors and results, in the shape the library's own error enumeration has. */
module Results {

  datatype Option<+T> = None | Some(value: T)

  /** Why an input was refused; one constructor per message the library carries. */
  datatype Reason =
    | HexLength | HexCharacter
    | MalformedBinary | TruncatedBinary
    | ProfileTooLarge | ProfileNotUtf8 | ProfilePrefix | ProfileFieldMissing | ProfileField
    | ProfileExtraLine | ProfileFingerprint | ProfileNotCanonical
    | UnlockTooLarge | UnlockNotUtf8 | UnlockPrefix | UnlockMissing | UnlockExtraLine | UnlockNotCanonical
    | LocalProfileMismatch | SenderProfileMismatch
    | BodyTooLarge | NoBucket | InternalPadding | OuterPadding
    | InternalTruncated | ProtocolVersion | CryptoSuite | BodyLength
    | UnlockInsideState | IdentityExists | UnlockExists | CannotUnlock | IdentityDiffers
    | BadAlias | BadContactFile | FileTooLarge | NotRegularFile | NotDirectory

  datatype IoKind = Missing | AlreadyExists | Other

  datatype Error =
    | Authentication
    | CannotOpen
    | IdentityMismatch
    | InvalidInput(reason: Reason)
    | Io(kind: IoKind)
    | NotPinned
    | Usage

  /** A failure-compatible result, used with `:-`. */
  datatype Result<+T> = Ok(value: T) | Err(error: Error) {
    predicate IsFailure() {
      Err?
    }

    function PropagateFailure<U>(): Result<U>
      requires Err?
    {
      Err(error)
    }

    function Extract(): T
      requires Ok?
    {
      value
    }
  }

  function Invalid<T>(reason: Reason): Result<T> {
    Err(InvalidInput(reason))
  }
}
