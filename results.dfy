/** Failure-carrying wrappers shared by the other modules. */
module Results {

  /** A value that may be absent (Python's `None`). */
  datatype Option<T> = None | Some(value: T)

  /** The outcome of an operation that may raise. */
  datatype Result<T, E> = Success(value: T) | Failure(error: E)
}
