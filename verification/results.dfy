/** Option and Result datatypes shared by the model. A `Failure` stands for
    the fatal `AssertionError` the Python code raises on a conflict. */
module Results {

  datatype Option<+T> = None | Some(value: T)

  /** A failure-compatible result, so that a fold can stop at the first
      conflict with `:-`. */
  datatype Result<+R, +E> = Success(value: R) | Failure(error: E) {

    predicate IsFailure() {
      Failure?
    }

    /** The same error, carried into a result of another value type. */
    function PropagateFailure<U>(): (r: Result<U, E>)
      requires Failure?
    {
      Failure(error)
    }

    function Extract(): R
      requires Success?
    {
      value
    }
  }
}
