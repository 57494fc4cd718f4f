/** Failure-compatible result types used throughout the model. */
module Wrappers {

  /** An optional value: `None` stands for the `null` the service keeps when a provider gave no rate. */
  datatype Option<+T> = None | Some(value: T)

  /** A value or the failure a call raised instead of returning one. */
  datatype Result<+R, +E> = Success(value: R) | Failure(error: E) {
    predicate IsFailure() {
      Failure?
    }

    function PropagateFailure<U>(): Result<U, E>
      requires Failure?
    {
      Failure(error)
    }

    function Extract(): R
      requires Success?
    {
      value
    }
  }
}
