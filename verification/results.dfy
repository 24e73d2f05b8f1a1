/** Failure-compatible wrappers used throughout the model. */
module Results {

  /** An optional value, e.g. the position returned by a string search. */
  datatype Option<+T> = None | Some(value: T)

  /** The outcome of an operation that may throw in the source. */
  datatype Result<+T, +E> = Success(value: T) | Failure(error: E) {
    predicate IsFailure() {
      Failure?
    }

    function PropagateFailure<U>(): Result<U, E>
      requires Failure?
    {
      Failure(error)
    }

    function Extract(): T
      requires Success?
    {
      value
    }
  }
}
