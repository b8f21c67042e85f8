/** Option and Result, the two failure-compatible wrappers used by the model. */
module Wrappers {

  datatype Option<+T> = None | Some(value: T)

  /** Either a value, or the error the Java code raises as an exception. */
  datatype Result<+R, +E> = Success(value: R) | Failure(error: E) {

    predicate IsFailure() {
      Failure?
    }

    function PropagateFailure<U>(): Result<U, E>
      requires Failure?
    {
      Failure(error)
    }

    function Extract(): R
      requires Success?
    {
      value
    }
  }
}
