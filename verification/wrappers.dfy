/** Failure-compatible wrappers used by the record operations: `Option` for
    optional values of a `vals` dictionary, `Result` for an operation that
    either commits a new state or is rolled back with an error. */
module Wrappers {

  /** A value that may be absent (a key missing from a `vals` dictionary). */
  datatype Option<+T> = None | Some(value: T) {

    /** The value, or `default` when it is absent. */
    function GetOr(default: T): T {
      match this
      case Some(v) => v
      case None => default
    }
  }

  /** The outcome of an operation: the committed value, or the error that
      aborted it (the caller then keeps its previous state). */
  datatype Result<+T, +E> = Success(value: T) | Failure(error: E) {

    predicate IsFailure() {
      Failure?
    }

    function PropagateFailure<U>(): Result<U, E>
      requires Failure?
    {
      Failure(error)
    }

    function Extract(): T
      requires Success?
    {
      value
    }
  }
}
