/** Option, Result and Outcome: the model's stand-ins for Java's null, thrown exceptions and void methods. */
module Wrappers {

  /** A value or nothing; None stands for a Java null reference or an empty Optional. */
  datatype Option<+T> = None | Some(value: T)

  /** A value, or the exception that was thrown instead of returning one. */
  datatype Result<+R, +E> = Ok(value: R) | Err(error: E)

  /** A void method that either returns normally or throws. */
  datatype Outcome<+E> = Pass | Fail(error: E)
}
