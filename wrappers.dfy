/** Failure-compatible wrappers used across the model. */
module Wrappers {

  /** A value that may be absent: a missing dictionary key, a `None`. */
  datatype Option<+T> = None | Some(value: T)

  /** The outcome of a step that may raise: the value, or the exception's kind. */
  datatype Result<+R, +E> = Success(value: R) | Failure(error: E)
}
