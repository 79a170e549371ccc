/** Option and Result values, and the Ruby exception classes the wrapper raises. */
module Wrappers {

  /** A Ruby value that may be `nil`. */
  datatype Option<+T> = None | Some(value: T) {
    function GetOr(default: T): T {
      match this
      case Some(v) => v
      case None => default
    }
  }

  /** The exceptions the wrapper raises: `RbSDL2::RbSDL2Error`, Ruby's `ArgumentError`
      and `TypeError`, and the `RuntimeError` raised with message "out of bounds". */
  datatype Error = RbSDL2Error | ArgumentError | TypeError | OutOfBounds

  /** Either the value a Ruby method returns or the exception it raises. */
  datatype Result<+T> = Ok(value: T) | Err(error: Error)
}
