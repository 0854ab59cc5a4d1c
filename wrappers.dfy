/** Option, Result and Outcome: the source's nullable references and thrown exceptions, as values. */
module Wrappers {

  /** A Java reference that may be null. */
  datatype Option<+T> = None | Some(value: T)

  /** A call that either returns a value or throws an exception. */
  datatype Result<+T, +E> = Success(value: T) | Failure(error: E)

  /** A void call that either completes or throws an exception. */
  datatype Outcome<+E> = Pass | Fail(error: E)
}
