/** Optional values and two-channel results used throughout the model. */
module Wrappers {

  /** A value that may be absent: PHP's `null` / `false` returns. */
  datatype Option<+T> = None | Some(value: T) {

    /** The wrapped value, or `default` when there is none. */
    function GetOr(default: T): T {
      match this
      case Some(v) => v
      case None => default
    }
  }

  /** Either a value or an error: a thrown exception becomes `Err`. */
  datatype Result<+T, +E> = Ok(value: T) | Err(error: E)
}
