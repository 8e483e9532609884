/** Optional values and results with an error value, used wherever the crawler
    returns `null`, `undefined` or throws. */
module Wrappers {

  datatype Option<+T> = None | Some(value: T) {

    /** The wrapped value, or `default` when there is none (JavaScript's `??`). */
    function GetOr(default: T): T {
      match this
      case Some(v) => v
      case None => default
    }
  }

  /** `Ok(value)` for a normal return, `Err(error)` for a thrown error or rejected promise. */
  datatype Result<+T, +E> = Ok(value: T) | Err(error: E)
}
