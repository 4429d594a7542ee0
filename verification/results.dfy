/** Failure-carrying result types shared by the model. */
module Results {

  /** The outcome of an operation that either produces a value or fails with an error. */
  datatype Result<+T, +E> = Success(value: T) | Failure(error: E)

  /** An optional value. */
  datatype Option<+T> = None | Some(value: T)
}
