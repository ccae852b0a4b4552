/** Failure-carrying result types shared by the worker and ingestion models. */
module Wrappers {

  /** A value that may be absent: a call that failed or returned nothing. */
  datatype Option<+T> = None | Some(value: T)

  /** A value, or the reason it could not be produced. */
  datatype Result<+T, +E> = Success(value: T) | Failure(error: E)
}
