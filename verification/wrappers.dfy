/** Failure-compatible result types used by the frame adapter model. */
module Wrappers {

  /** A value that may be absent; `None` plays the role of a falsy engine answer. */
  datatype Option<+T> = None | Some(value: T)

  /** The outcome of an adapter operation: a value, or the exception it raises. */
  datatype Result<+T, +E> = Success(value: T) | Failure(error: E) {

    predicate IsFailure() {
      Failure?
    }

    function PropagateFailure<U>(): Result<U, E>
      requires Failure?
    {
      Failure(error)
    }

    function Extract(): T
      requires Success?
    {
      value
    }
  }
}
