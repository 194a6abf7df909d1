/** Failure-carrying wrappers used across the ingestion model. */
module Results {

  /** A value that may be absent: Python's `None`-or-object returns. */
  datatype Option<+T> = None | Some(value: T)

  /** A computation that either produced a value or raised an error. */
  datatype Result<+T, +E> = Success(value: T) | Failure(error: E)
}
