/** Optional values and success/failure results shared by every module of the model. */
module Wrappers {

  /** A value that may be absent: SQL NULL, a missing JSON field or a JavaScript `null`. */
  datatype Option<+T> = None | Some(value: T) {
    function GetOr(default: T): T {
      match this
      case Some(v) => v
      case None => default
    }
  }

  /** The outcome of a handler: a value, or the HTTP status of the error it throws. */
  datatype Result<+T> = Ok(value: T) | Err(status: int)
}
