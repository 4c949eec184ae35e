/** Optional values and results with an error, shared by every other module. */
module Wrappers {

  /** A value that may be absent: the model of a TypeScript `T | undefined` or `T | null`. */
  datatype Option<+T> = None | Some(value: T)

  /** The outcome of an operation that either returns a value or throws an error. */
  datatype Result<+T, +E> = Success(value: T) | Failure(error: E)
}
