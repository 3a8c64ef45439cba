/** Option and Result, the failure-carrying values used across the model. */
module Wrappers {

  datatype Option<+T> = None | Some(value: T) {
    predicate IsFailure() {
      None?
    }

    function PropagateFailure<U>(): Option<U>
      requires None?
    {
      None
    }

    function Extract(): T
      requires Some?
    {
      value
    }
  }

  /** Go's `(value, error)` pair: exactly one of the two is meaningful. */
  datatype Result<+R, +E> = Success(value: R) | Failure(error: E)
}
