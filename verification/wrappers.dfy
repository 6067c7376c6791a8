/** Option and Result, the failure-compatible wrappers used throughout the model.
    A Python function that returns `None` for "absent" becomes an Option; a
    Python function that can raise becomes a Result whose Failure carries the
    exception (see module Exceptions). */
module Wrappers {

  datatype Option<+T> = None | Some(value: T) {
    function GetOr(default: T): T {
      match this
      case Some(v) => v
      case None => default
    }
  }

  datatype Result<+R, +E> = Ok(value: R) | Failure(error: E) {
    predicate IsFailure() {
      Failure?
    }

    function PropagateFailure<U>(): Result<U, E>
      requires Failure?
    {
      Failure(error)
    }

    function Extract(): R
      requires Ok?
    {
      value
    }
  }
}
