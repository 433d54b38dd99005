/** Option and Result, the two ways an operation of the model reports absence or failure. */
module Wrappers {

  /** A Java reference that may be `null`: `None` is the absent value. */
  datatype Option<+T> = None | Some(value: T)

  /** The outcome of an operation that can throw: `Failure` carries what was thrown. */
  datatype Result<+T, +E> = Success(value: T) | Failure(error: E)
}
