/** Optional values and results with an error, as used throughout the model. */
module Wrappers {

  /** A value that may be absent (an optional property of a TypeScript object). */
  datatype Option<+T> = None | Some(value: T)

  /** The outcome of an operation that may be rejected with an error. */
  datatype Result<+R, +E> = Success(value: R) | Failure(error: E)
}
