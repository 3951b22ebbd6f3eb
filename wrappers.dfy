/** Absent values and failures, in place of Java's null, Optional and exceptions. */
module Wrappers {

  /** `java.util.Optional`, and a nullable reference: `None` stands for empty / null. */
  datatype Option<+T> = None | Some(value: T)

  /** The value of an operation, or the exception it throws. */
  datatype Result<+R, +E> = Success(value: R) | Failure(error: E)

  /** The outcome of a `void` operation: it returns, or it throws. */
  datatype Outcome<+E> = Pass | Fail(error: E)
}
