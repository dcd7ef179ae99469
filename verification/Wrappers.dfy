/** Values that may be absent, and results that may be refused. */
module Wrappers {

  datatype Option<+T> = None | Some(value: T)
  {
    function UnwrapOr(default: T): T {
      if Some? then value else default
    }
  }

  /** The error conditions of the storage stack and the stream operations. */
  datatype Error =
    | OutOfRange
    | InvalidArg
    | Corrupt
    | CorruptMetas
    | ValueTooLarge
    | KeyNotFound
    | KeyExists
    | IoError
    | UnsupportedFormatVersion

  datatype Result<+T> = Ok(value: T) | Err(error: Error)

  function Min(a: int, b: int): int {
    if a <= b then a else b
  }

  function Max(a: int, b: int): int {
    if a <= b then b else a
  }
}
