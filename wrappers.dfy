/** Optional values and results with an error, as used throughout the model. */
module Wrappers {

  /** A value that may be absent: JavaScript's `undefined` in the modelled code. */
  datatype Option<+T> = None | Some(value: T)

  /** The outcome of a computation that can fail: a thrown exception in the modelled code. */
  datatype Result<+T, +E> = Success(value: T) | Failure(error: E)
}
