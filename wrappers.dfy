/** Failure-carrying values: Java's null and thrown exceptions made explicit. */
module Wrappers {

  /** A value or nothing: the model of a nullable Java reference. */
  datatype Option<+T> = None | Some(value: T)

  /** A value or an error: the model of a call that may throw. */
  datatype Result<+T, +E> = Ok(value: T) | Err(error: E)

  /** Success without a value, or an error: the model of a void call that may throw. */
  datatype Outcome<+E> = Pass | Fail(error: E)
}
