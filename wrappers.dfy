/** Failure-carrying values shared by every module of the model. */
module Wrappers {

  datatype Option<+T> = None | Some(value: T) {
    function GetOr(default: T): T {
      match this
      case Some(v) => v
      case None => default
    }
  }

  /** Rust's `Result`: a value, or the error that replaced it. */
  datatype Result<+T, +E> = Ok(value: T) | Err(error: E)
}
