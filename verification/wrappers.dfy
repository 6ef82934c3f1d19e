/** Failure-compatible wrappers used in place of Java's null references and exceptions. */
module Wrappers {

  /** An optional value; `None` plays the role of a Java `null` reference. */
  datatype Option<+T> = None | Some(value: T)

  /** The outcome of an operation that may throw: a value, or the exception raised. */
  datatype Result<+R, +E> = Success(value: R) | Failure(error: E)
}
