/** Failure-carrying values shared by every module of the model. */
module Base {

  /** A value that may be absent (Python's `None`). */
  datatype Option<T> = None | Some(value: T)

  /** The outcome of an operation that raises an exception in the source. */
  datatype Result<T> = Success(value: T) | Failure(error: string)
}
