/** Optional values and results with an error, used for cache misses and for
    the construction failure of the sharded cache. */
module Wrappers {

  /** A cache lookup either finds a value or finds nothing. */
  datatype Option<+T> = None | Some(value: T) {

    /** The found value, or `default` when nothing was found. */
    function GetOr(default: T): T {
      match this
      case Some(v) => v
      case None => default
    }
  }

  /** An operation that either produces a value or fails with an error. */
  datatype Result<+R, +E> = Success(value: R) | Failure(error: E)
}
