/** Option and Result values used for the optional arguments and the
    exceptions of the modelled Python code. */
module Wrappers {

  datatype Option<+T> = None | Some(value: T) {
    /** The contained value, or `default` for None (Python's `x if x is not None else default`). */
    function GetOr(default: T): T {
      match this
      case Some(v) => v
      case None => default
    }
  }

  /** A value or the exception that replaced it. */
  datatype Result<+R, +E> = Success(value: R) | Failure(error: E)
}
