/**
 Result types shared by every component.

 `Panic` is an outcome of its own: several parsers index or slice without a
 bounds check, and the release profile aborts the process when that fails.
 */
module Outcomes {

  datatype Option<+T> = None | Some(value: T) {
    predicate IsFailure() { None? }

    function PropagateFailure<U>(): Option<U>
      requires None?
    {
      None
    }

    function Extract(): T
      requires Some?
    {
      value
    }
  }

  datatype Outcome<+T, +E> = Ok(value: T) | Err(error: E) | Panic {
    predicate IsFailure() { !Ok? }

    function PropagateFailure<U>(): Outcome<U, E>
      requires !Ok?
    {
      if Err? then Err(error) else Panic
    }

    function Extract(): T
      requires Ok?
    {
      value
    }
  }

  /** The error kinds of `NiphasError` that the modelled code can return. */
  datatype Error =
    | InvalidStorePath
    | NarParse(narFault: NarFault)
    | NarInfoParse(infoFault: NarInfoFault)
    | HashMismatch
    | Cache
    | ClosureResolution
    | Io
    | Timeout
    | InvalidInput

  datatype NarFault =
    | UnexpectedEof
    | StringTooLarge
    | NonZeroPadding
    | InvalidUtf8
    | UnexpectedToken
    | UnknownNodeType
    | DepthExceeded
    | EmptyName
    | DotName
    | ForbiddenCharacter
    | NotSorted

  datatype NarInfoFault =
    | InvalidDigit(c: char)
    | MissingSeparator
    | UnknownAlgorithm
    | DigestLength
    | UnknownCompression
    | MalformedLine
    | InvalidSize
    | InvalidSignature
    | MissingField(field: string)
}
