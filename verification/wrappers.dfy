/** Failure-compatible result and option types shared by every module of the model.
    A Java exception thrown by the source becomes a `Failure` carrying a small
    error kind; `null` returned by the source becomes `None`. */
module Wrappers {

  datatype Option<+T> = None | Some(value: T)

  datatype Result<+T, +E> = Success(value: T) | Failure(error: E) {

    predicate IsFailure() {
      Failure?
    }

    function PropagateFailure<U>(): Result<U, E>
      requires Failure?
    {
      Failure(error)
    }

    function Extract(): T
      requires Success?
    {
      value
    }
  }
}
