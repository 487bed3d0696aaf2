/** Option and Result, the failure-carrying datatypes used throughout the model. */
module Wrappers {

  /** A possibly absent value; `None` plays the part of JavaScript's `null`/`undefined`. */
  datatype Option<+T> = None | Some(value: T) {

    /** The value, or `default` when absent. */
    function GetOr(default: T): T {
      match this
      case Some(v) => v
      case None => default
    }
  }

  /** Either a value or the error that stopped the computation (a thrown exception). */
  datatype Result<+T, +E> = Ok(value: T) | Fail(error: E)
}
