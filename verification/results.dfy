/**
 * Failure-carrying wrappers used throughout the model: PHP functions of the
 * plugin return either a value or a `WP_Error`, and WordPress lookups return
 * either a value or nothing.
 */
module Results {

  /** A value that may be absent (PHP `null`, a missing array key, `false` from a lookup). */
  datatype Option<+T> = None | Some(value: T) {
    function GetOr(default: T): T {
      match this
      case Some(v) => v
      case None => default
    }
  }

  /** A value or an error code (the PHP code returns a `WP_Error` in the error case). */
  datatype Result<+T, +E> = Ok(value: T) | Err(error: E)

  /** Success without a value, or an error code (`true` or a `WP_Error`). */
  datatype Outcome<+E> = Pass | Fail(error: E)
}
