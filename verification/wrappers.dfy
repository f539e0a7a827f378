/** Option and Result, the failure-compatible datatypes the rest of the model
    uses for absent values and for the exceptions the source raises. */
module Wrappers {

  datatype Option<+T> = None | Some(value: T)

  /** Success carries the returned value; Failure carries the exception the
      source would raise instead. Usable with `:-`. */
  datatype Result<+R, +E> = Success(value: R) | Failure(error: E) {

    predicate IsFailure() {
      Failure?
    }

    function PropagateFailure<U>(): Result<U, E>
      requires Failure?
    {
      Failure(error)
    }

    function Extract(): R
      requires Success?
    {
      value
    }
  }
}
