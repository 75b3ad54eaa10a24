/** Failure-compatible wrappers used by every operation of the model: a
    missing row is `None`, and an operation that the backend aborts with an
    exception returns `Failure` and leaves the stored state as it was. */
module Results {

  datatype Option<+T> = None | Some(value: T)

  datatype Result<+T, +E> = Success(value: T) | Failure(error: E) {

    predicate IsFailure() {
      Failure?
    }

    function PropagateFailure<U>(): Result<U, E>
      requires Failure?
    {
      Failure(error)
    }

    function Extract(): T
      requires Success?
    {
      value
    }
  }
}
