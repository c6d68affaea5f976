/** Optional values and results with an error, as used throughout the model. */
module Wrappers {

  /** A value that may be absent (the source's `undefined` / `null`). */
  datatype Option<+T> = None | Some(value: T) {
    function GetOr(default: T): T {
      match this
      case Some(v) => v
      case None => default
    }
  }

  /** Either a value or an error (the source's thrown `Error`). */
  datatype Result<+R, +E> = Success(value: R) | Failure(error: E)
}
