/** Failure-compatible wrappers used across the model. */
module Wrappers {

  /** A value that may be missing (JavaScript's `undefined`/`null`). */
  datatype Option<+T> = None | Some(value: T) {
    predicate IsFailure() {
      None?
    }

    function PropagateFailure<U>(): Option<U>
      requires None?
    {
      None
    }

    function Extract(): T
      requires Some?
    {
      value
    }
  }

  /** Either a computed value or the error that a thrown exception would carry. */
  datatype Result<+R, +E> = Success(value: R) | Failure(error: E)
}
