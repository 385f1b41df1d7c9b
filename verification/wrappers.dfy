/** The optional and fallible values shared by the whole model: `Option` for values that
    JavaScript writes as `undefined`/`null`, `Result` for operations that throw. */
module Wrappers {

  datatype Option<+T> = None | Some(value: T) {

    /** `x ?? default` in JavaScript terms: the value when present, else `default`. */
    function GetOr(default: T): T {
      match this
      case Some(v) => v
      case None => default
    }
  }

  /** A value, or the message of the exception thrown instead of producing one. */
  datatype Result<+R, +E> = Success(value: R) | Failure(error: E)
}
