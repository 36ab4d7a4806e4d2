/** Option, Result and Outcome: the model's stand-ins for Java's null and exceptions. */
module Wrappers {

  /** `None` stands for a Java `null` reference; `Some(v)` for a non-null one. */
  datatype Option<+T> = None | Some(value: T)

  /** The outcome of a Java call that returns a value or throws. */
  datatype Result<+T, +E> = Success(value: T) | Failure(error: E)

  /** The outcome of a Java `void` call that returns normally or throws. */
  datatype Outcome<+E> = Pass | Fail(error: E)
}
