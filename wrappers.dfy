/** Optional values (Java's nullable references), results with an error
    value (Java's thrown exceptions) and pass/fail outcomes. */
module Wrappers {

  /** A Java reference that may be null: `None` stands for null. */
  datatype Option<+T> = None | Some(value: T)

  /** The value of a call that either returns normally or throws. */
  datatype Result<+R, +E> = Success(value: R) | Failure(error: E)

  /** The value of a void call that either returns normally or throws. */
  datatype Outcome<+E> = Pass | Fail(error: E)
}
