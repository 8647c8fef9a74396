/** Failure-compatible result types shared by the other modules. */
module Wrappers {

  /** An optional value; `None` stands for a Go call that returned a non-nil error. */
  datatype Option<+T> = None | Some(value: T)

  /** A value or an error, for operations whose error matters to the caller. */
  datatype Result<+R, +E> = Success(value: R) | Failure(error: E) {

    predicate IsFailure() {
      Failure?
    }

    function PropagateFailure<U>(): Result<U, E>
      requires Failure?
    {
      Failure(error)
    }

    function Extract(): R
      requires Success?
    {
      value
    }
  }
}
