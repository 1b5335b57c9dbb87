/** Failure-carrying values that stand in for the Java exceptions of the directive pipeline. */
module Wrappers {

  /** An optional value; `None` marks a value that is absent (an unparseable date, a missing list element). */
  datatype Option<+T> = None | Some(value: T)

  /** The result of an operation that either produces a value or fails with a typed error. */
  datatype Result<+R, +E> = Success(value: R) | Failure(error: E)

  /** The result of an operation that produces nothing on success. */
  datatype Outcome<+E> = Pass | Fail(error: E)
}
