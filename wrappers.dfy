/** Optional values and error results, standing for Python's None and raised exceptions. */
module Wrappers {

  /** Python's `None` versus a present value. */
  datatype Option<+T> = None | Some(value: T) {

    /** The value, or `default` when there is none (Python's `d.get(k, default)`). */
    function GetOr(default: T): T {
      match this
      case Some(v) => v
      case None => default
    }
  }

  /** A value, or the error an exception would have carried. */
  datatype Result<+R, +E> = Ok(value: R) | Err(error: E)
}
