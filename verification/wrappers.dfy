/** Option and Result, for the lookups that may miss and the calls that may raise. */
module Wrappers {

  datatype Option<+T> = None | Some(value: T) {
    /** The value, or `default` when there is none (Python's `d.get(k, default)`). */
    function GetOr(default: T): T {
      match this
      case Some(v) => v
      case None => default
    }
  }

  /** An outcome that is either a value or the exception that would have been raised. */
  datatype Result<+R, +E> = Success(value: R) | Failure(error: E)
}
