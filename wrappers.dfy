/** Failure-carrying values used in place of Java's null and exceptions. */
module Wrappers {

  /** A value that may be absent (Java's nullable reference). */
  datatype Option<+T> = None | Some(value: T)

  /** A computation that either produced a value or failed with an error. */
  datatype Result<+R, +E> = Success(value: R) | Failure(error: E)

  /** A computation with no value that either passed or failed with an error. */
  datatype Outcome<+E> = Pass | Fail(error: E)
}
