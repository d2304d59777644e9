/** Option and Result, the two failure-carrying shapes the portal code uses. */
module Wrappers {

  datatype Option<+T> = None | Some(value: T) {
    /** The value, or a default when absent (Rust's `unwrap_or` / `unwrap_or_default`). */
    function GetOr(default: T): T {
      match this
      case Some(v) => v
      case None => default
    }
  }

  datatype Result<+T, +E> = Ok(value: T) | Err(error: E)
}
