// Failure-compatible wrappers standing in for C#'s nullable references and
// for the exceptions the services throw and rethrow.
module Wrappers {

  /** A nullable value: `None` is C#'s `null`. */
  datatype Option<+T> = None | Some(value: T) {
    function GetOr(default: T): T {
      match this
      case Some(v) => v
      case None => default
    }
  }

  /** The outcome of a call that either returns a value or throws `error`. */
  datatype Result<+R, +E> = Success(value: R) | Failure(error: E)

  /** The outcome of a call that returns nothing or throws `error`. */
  datatype Outcome<+E> = Pass | Fail(error: E)
}
