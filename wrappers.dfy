/** Option and Result, the shapes the Rust code returns (`Option<T>`, `Result<T, String>`). */
module Wrappers {

  datatype Option<+T> = None | Some(value: T) {
    /** `Option::unwrap_or`. */
    function UnwrapOr(default: T): T {
      match this
      case Some(v) => v
      case None => default
    }
  }

  datatype Result<+T, +E> = Ok(value: T) | Err(error: E)

  /** The unit value `()` of `Result<(), String>`. */
  datatype Unit = Unit
}
