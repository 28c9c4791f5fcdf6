/** Failure-carrying result types shared by the modules of this model. */
module Wrappers {

  /** `None` stands for Java's `null`. */
  datatype Option<+T> = None | Some(value: T)

  /** The value a Java method returns, or the exception it throws. */
  datatype Result<+R, +E> = Success(value: R) | Failure(error: E)

  /** A Java `void` method that either completes or throws. */
  datatype Outcome<+E> = Pass | Fail(error: E)
}
