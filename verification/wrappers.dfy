/** Optional values and results with an error, shared by every module of the model. */
module Wrappers {

  /** A value that may be absent: Java's nullable references and `Optional`. */
  datatype Option<+T> = None | Some(value: T)

  /** The outcome of an operation that either returns a value or throws. */
  datatype Result<+R, +E> = Success(value: R) | Failure(error: E)
}
