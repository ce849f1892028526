/** Optional values and error returns, standing for JavaScript's `undefined`/`null`,
    Python's `None`, and thrown errors carrying a message. */
module Wrappers {

  datatype Option<+T> = None | Some(value: T) {
    function GetOr(default: T): T {
      match this
      case Some(v) => v
      case None => default
    }
  }

  /** The value of a call that either returns or throws an error with a message. */
  datatype Result<+T> = Ok(value: T) | Err(message: string)

  /** The outcome of a validation that returns nothing or throws. */
  datatype Outcome = Pass | Fail(message: string)
}
