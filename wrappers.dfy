/** Optional values and results with an error value. */
module Wrappers {

  /** A value that may be absent, as a Python dictionary lookup that may miss. */
  datatype Option<+T> = None | Some(value: T) {

    /** The wrapped value, or `default` when absent (`dict.get(key, default)`). */
    function GetOr(default: T): T {
      match this
      case Some(v) => v
      case None => default
    }
  }

  /** The outcome of a computation that may raise. */
  datatype Result<+R, +E> = Success(value: R) | Failure(error: E)
}
