/** Failure-compatible Option and Result types used throughout the model.
    The source signals failure by throwing; here every throwing path is a
    `Failure` value that callers propagate with `:-`. */
module Wrappers {

  datatype Option<+T> = None | Some(value: T)

  datatype Result<+T, +E> = Success(value: T) | Failure(error: E) {

    predicate IsFailure() {
      Failure?
    }

    function PropagateFailure<U>(): Result<U, E>
      requires Failure?
    {
      Failure(error)
    }

    function Extract(): T
      requires Success?
    {
      value
    }

    /** Replaces the error value, keeping a success untouched. */
    function MapFailure<E2>(f: E -> E2): (r: Result<T, E2>)
      ensures Success? <==> r.Success?
      ensures Success? ==> r.value == value
    {
      match this
      case Success(v) => Success(v)
      case Failure(e) => Failure(f(e))
    }
  }
}
