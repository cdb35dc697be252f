/** Option and Result, the two failure-carrying shapes used throughout the model:
    a nullable column or an absent request key is an Option, and a controller
    action that can abort (403/404) or fail validation (422) returns a Result. */
module Wrappers {

  datatype Option<+T> = None | Some(value: T) {

    /** The value in Some, or the fallback when None (PHP's `??`). */
    function GetOr(fallback: T): T {
      match this
      case Some(v) => v
      case None => fallback
    }
  }

  datatype Result<+R, +E> = Ok(value: R) | Err(error: E)
}
