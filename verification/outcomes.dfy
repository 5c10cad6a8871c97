/**
 Failure-compatible wrappers used throughout the model. Python exceptions that
 the modelled code can raise are represented by the `Error` kinds below, and a
 call that may raise returns a `Result`.
 */
module Outcomes {

  /** Python's `None` versus a present value. */
  datatype Option<+T> = None | Some(value: T)

  /** The exception kinds the modelled code raises. */
  datatype Error =
    | ValueError  // bad literal for int(), unpacking mismatch, min() of an empty list, zero range step
    | IndexError  // list index out of range

  datatype Result<+T> = Success(value: T) | Failure(error: Error) {

    predicate IsFailure() {
      Failure?
    }

    function PropagateFailure<U>(): Result<U>
      requires Failure?
    {
      Failure(error)
    }

    function Extract(): T
      requires Success?
    {
      value
    }
  }
}
