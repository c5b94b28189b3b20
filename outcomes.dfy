/** Failure-compatible wrappers: an optional Python argument (`None` or a
    value), a call that returns a value or raises, and a call that returns
    nothing or raises. */
module Outcomes {

  /** A Python argument that may be `None`. */
  datatype Option<+T> = None | Some(value: T) {
    function GetOr(default: T): T {
      match this
      case Some(v) => v
      case None => default
    }
  }

  /** The result of a call that either returns a value or raises `error`. */
  datatype Result<+T, +E> = Success(value: T) | Failure(error: E) {
    predicate IsFailure() {
      Failure?
    }

    function PropagateFailure<U>(): Result<U, E>
      requires Failure?
    {
      Failure(error)
    }

    function Extract(): T
      requires Success?
    {
      value
    }
  }

  /** The result of a call that returns `None` or raises `error`. */
  datatype Outcome<+E> = Pass | Fail(error: E)
}
