/** Failure-carrying values used where the Ruby code raises or returns nil. */
module Wrappers {

  /** A value that may be absent (Ruby's nil). */
  datatype Option<+T> = None | Some(value: T) {
    function GetOr(default: T): T {
      match this
      case Some(v) => v
      case None => default
    }
  }

  /** Either a value or the error the Ruby code would raise. */
  datatype Result<+R, +E> = Success(value: R) | Failure(error: E)

  /** A check that either passes or fails with an error. */
  datatype Outcome<+E> = Pass | Fail(error: E)
}
