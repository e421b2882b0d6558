/** Failure-compatible wrappers used by the rest of the model. */
module Wrappers {

  /** A value that may be absent: a file that does not exist, a search that found nothing. */
  datatype Option<+T> = None | Some(value: T)

  /** The outcome of an operation that can fail with an error of type E. */
  datatype Result<+T, +E> = Success(value: T) | Failure(error: E)
}
