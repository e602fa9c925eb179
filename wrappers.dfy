/** Optional values and the outcome of an operation that the source lets raise. */
module Wrappers {

  datatype Option<T> = None | Some(value: T) {
    function GetOr(default: T): T {
      match this
      case Some(v) => v
      case None => default
    }
  }

  /** The Python exceptions the modelled code can raise and does not catch. */
  datatype PyError =
    | IndexError     // a list index out of range
    | ValueError     // strptime rejected its input
    | OverflowError  // datetime arithmetic left the years 1..9999

  datatype Result<T> = Ok(value: T) | Err(error: PyError)
}
