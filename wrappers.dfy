/** Option and Result values shared by the other modules. */
module Wrappers {

  /** A value that may be missing: Python's `None` or a present value. */
  datatype Option<+T> = None | Some(value: T) {
    function GetOr(default: T): T {
      match this
      case Some(v) => v
      case None => default
    }
  }

  /** The outcome of an operation that can raise: a value or an error. */
  datatype Result<+R, +E> = Success(value: R) | Failure(error: E)
}
