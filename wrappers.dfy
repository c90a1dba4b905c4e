/** Option, Result and Outcome: the nullable values and the typed failures of the services. */
module Wrappers {

  /** A value that may be SQL NULL / a C# null reference. */
  datatype Option<+T> = None | Some(value: T)

  /** A call that either returns a value or raises a classified failure. */
  datatype Result<+R, +E> = Success(value: R) | Failure(error: E)

  /** A call that returns nothing or raises a classified failure. */
  datatype Outcome<+E> = Pass | Fail(error: E)
}
