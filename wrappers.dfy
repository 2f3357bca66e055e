/** Optional arguments and error returns of the calculators. */
module Wrappers {

  /** A Python keyword argument that may be left at its `None` default. */
  datatype Option<+T> = None | Some(value: T) {

    /** The supplied value, or `default` when the argument was left out. */
    function GetOr(default: T): T {
      match this
      case Some(v) => v
      case None => default
    }
  }

  /** A value, or the exception the source raises instead. */
  datatype Result<+T, +E> = Ok(value: T) | Err(error: E)
}
