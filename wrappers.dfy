/** Failure-compatible wrappers used throughout the model: a nullable value, and the
    outcome of an operation that may throw. */
module Wrappers {

  /** A value that may be absent; stands for a nullable reference (`string?`, a null pointer). */
  datatype Option<+T> = None | Some(value: T) {
    function GetOr(default: T): T {
      match this
      case Some(v) => v
      case None => default
    }
  }

  /** The outcome of an operation that returns normally or throws an exception carrying `error`. */
  datatype Outcome<+E> = Pass | Fail(error: E)

  /** A value produced by an operation that may throw. */
  datatype Result<+R, +E> = Ok(value: R) | Err(error: E)
}
