/** Python values the two modules pass around: a value that may be `None`,
    and the exceptions the modelled code raises instead of returning. */
module PyValues {

  /** A Python value that may be `None`. */
  datatype Option<+T> = None | Some(value: T)

  /** The exceptions raised by the modelled code. */
  datatype PyError =
    | ValueError(message: string)
    | IndexError
    | TypeError
    | MaxLengthExceeded(read: seq<bv8>)

  /** Either the value returned or the exception raised. */
  datatype Result<+T> = Ok(value: T) | Err(error: PyError)

  function Min(a: int, b: int): int { if a <= b then a else b }
}
