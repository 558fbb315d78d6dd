/** The two failure-carrying datatypes that the models share. */
module Wrappers {
  /** A handle that may be null, or a search that may find nothing. */
  datatype Option<+T> = None | Some(value: T)

  /** The outcome of an operation that may throw. */
  datatype Result<+T, +E> = Success(value: T) | Failure(error: E)
}
