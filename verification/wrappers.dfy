/** Failure-carrying datatypes shared by the engine's operations. */
module Wrappers {

  /** A value that may be absent. */
  datatype Option<+T> = None | Some(value: T)

  /** Either a value or the error that the engine raised instead. */
  datatype Result<+R, +E> = Success(value: R) | Failure(error: E)
}
