/** Failure-compatible result types shared by the whole model. */
module Wrappers {

  datatype Option<+T> = None | Some(value: T)

  /** Either a value, or the exception that escaped the operation. */
  datatype Result<+R, +E> = Success(value: R) | Failure(error: E) {
    predicate IsFailure() {
      Failure?
    }

    function PropagateFailure<U>(): Result<U, E>
      requires Failure?
    {
      Failure(error)
    }

    function Extract(): R
      requires Success?
    {
      value
    }
  }
}
