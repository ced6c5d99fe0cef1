/** Option and Result: the absent value and the error return of the model. */
module Wrappers {

  datatype Option<+T> = None | Some(value: T)

  /** The outcome of an operation that may throw: its value or the exception it raises. */
  datatype Result<+T, +E> = Success(value: T) | Failure(error: E)
}
