/** Failure-carrying return values, standing in for Java's null and thrown exceptions. */
module Wrappers {

  /** A value that may be absent (a Java reference that may be null). */
  datatype Option<+T> = None | Some(value: T)

  /** The value an operation returns, or the exception it throws. */
  datatype Result<+T, +E> = Ok(value: T) | Err(error: E)

  /** The outcome of a `void` operation: it returns normally, or it throws. */
  datatype Outcome<+E> = Pass | Fail(error: E)
}
