/** Failure-compatible wrappers used for Java's nullable values and thrown exceptions. */
module Wrappers {

  /** A value that may be absent (Java's `null`). */
  datatype Option<+T> = None | Some(value: T)

  /** Either a computed value or the exception that the Java code would throw. */
  datatype Result<+R, +E> = Success(value: R) | Failure(error: E)
}
