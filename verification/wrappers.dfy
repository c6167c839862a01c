/** Option and Result, the failure-carrying wrappers used throughout the model. */
module Wrappers {

  /** A value that may be absent: PHP `null`, a JS `undefined`, a missing key. */
  datatype Option<+T> = None | Some(value: T) {

    /** The carried value, or `default` when absent (PHP's `??`). */
    function GetOr(default: T): T {
      match this
      case Some(v) => v
      case None => default
    }
  }

  /** The outcome of a request that the source can reject. */
  datatype Result<+T, +E> = Ok(value: T) | Err(error: E)
}
