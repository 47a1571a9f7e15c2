/** Failure-compatible wrappers used across the model. */
module Wrappers {

  /** An optional value: a missing file, a missing key, a failed parse. */
  datatype Option<+T> = None | Some(value: T) {
    function GetOr(default: T): T {
      match this
      case Some(v) => v
      case None => default
    }
  }

  /** The outcome of an operation that may raise in the original program. */
  datatype Result<+T, +E> = Success(value: T) | Failure(error: E)
}
