/** Failure-compatible helper datatypes shared by every module of the model. */
module Wrappers {

  /** A value that may be missing: Python's `None` versus a present value. */
  datatype Option<+T> = None | Some(value: T) {
    function GetOr(default: T): T {
      match this
      case Some(v) => v
      case None => default
    }
  }

  /** The outcome of an operation whose Python original can raise. */
  datatype Result<+R, +E> = Success(value: R) | Failure(error: E)
}
