/** Outcome of an operation that can fail with one of the source's exceptions. */
module Wrappers {
  datatype Result<T, E> = Success(value: T) | Failure(error: E)

  datatype Option<T> = None | Some(value: T)
}
