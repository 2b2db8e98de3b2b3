/** Option and Result, the failure-compatible wrappers the rest of the model
    uses in place of JavaScript's `undefined` and thrown errors. */
module Wrappers {

  /** A value that may be missing: `Array.prototype.find` returning `undefined`
      is `None`. */
  datatype Option<+T> = None | Some(value: T)

  /** Either a computed value or the error that stopped the computation. */
  datatype Result<+R, +E> = Success(value: R) | Failure(error: E) {

    predicate IsFailure() {
      Failure?
    }

    function PropagateFailure<U>(): Result<U, E>
      requires Failure?
    {
      Failure(error)
    }

    function Extract(): R
      requires Success?
    {
      value
    }
  }
}
