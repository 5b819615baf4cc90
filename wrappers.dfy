/** Failure-compatible wrappers used for the source's nullable returns and thrown exceptions. */
module Wrappers {

  /** A value that may be absent: the model of a Java `null` or an empty `Optional`. */
  datatype Option<+T> = None | Some(value: T)

  /** Either a value or the exception the source would have thrown instead of returning it. */
  datatype Result<+R, +E> = Success(value: R) | Failure(error: E) {
    predicate IsFailure() { Failure? }
  }
}
