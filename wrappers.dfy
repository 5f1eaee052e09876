/** Tagged results that stand in for Java's `Optional` and for thrown exceptions. */
module Wrappers {

  /** `java.util.Optional`, and a nullable field such as `Book.id`. */
  datatype Option<+T> = None | Some(value: T)

  /** A call that either returns a value or fails with an error. */
  datatype Result<+R, +E> = Success(value: R) | Failure(error: E)

  /** A `void` call that either completes or fails with an error. */
  datatype Outcome<+E> = Pass | Fail(error: E)
}
