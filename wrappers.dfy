/** Option and Result values standing in for Python's missing values and raised exceptions. */
module Wrappers {

  /** A value that may be absent (a CSV column the row does not have). */
  datatype Option<+T> = None | Some(value: T) {

    /** The value, or `default` when absent: Python's `row.get(key, default)`. */
    function GetOr(default: T): T
    {
      match this
      case Some(v) => v
      case None => default
    }
  }

  /** The outcome of a call that either returns a value or raises with a message. */
  datatype Result<+R, +E> = Success(value: R) | Failure(error: E)
}
