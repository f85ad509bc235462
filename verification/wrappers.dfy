/** Failure-carrying values shared by the rest of the model. */
module Wrappers {

  /** A value that may be absent (`undefined` on the JavaScript side). */
  datatype Option<+T> = None | Some(value: T)

  /** The outcome of a call that either yields a value or throws. */
  datatype Result<+T, +E> = Success(value: T) | Failure(error: E)
}
