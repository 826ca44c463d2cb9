/** Option and Result, used for Python's optional metadata values and for
    the exceptions the application's library calls may raise. */
module Wrappers {

  datatype Option<+T> = None | Some(value: T) {
    /** The value, or `default` when absent (Python's `dict.get(key, default)`). */
    function GetOr(default: T): T {
      match this
      case Some(v) => v
      case None => default
    }
  }

  /** `Failure` carries the text of the exception a library call raised. */
  datatype Result<+R, +E> = Success(value: R) | Failure(error: E)
}
