/** Option and Result, standing in for Java's nullable references and thrown exceptions. */
module Wrappers {

  /** `None` models a Java `null`. */
  datatype Option<+T> = None | Some(value: T)

  /** `Failure` models an exception that escapes the operation. */
  datatype Result<+R, +E> = Success(value: R) | Failure(error: E)
}
