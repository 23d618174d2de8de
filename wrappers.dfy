/** Option and Result, the failure-carrying values used throughout the model. */
module Wrappers {

  datatype Option<+T> = None | Some(value: T) {
    /** The wrapped value, or `default` when there is none. */
    function GetOr(default: T): T {
      match this
      case Some(v) => v
      case None => default
    }
  }

  /** A computation that either produced a value or stopped with an error
      (in the source: an uncaught C++ exception, which terminates the program). */
  datatype Result<+R, +E> = Success(value: R) | Failure(error: E)
}
