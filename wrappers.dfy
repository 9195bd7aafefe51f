/** Option and Result, the two Rust return shapes the loader uses. */
module Wrappers {

  /** Rust's `Option<T>`. */
  datatype Option<+T> = None | Some(value: T)

  /** Rust's `Result<T, E>`. */
  datatype Result<+T, +E> = Ok(value: T) | Err(error: E) {

    /** Rust's `unwrap_or_else` with a fallback that ignores the error. */
    function UnwrapOr(fallback: T): (r: T)
      ensures Ok? ==> r == value
      ensures Err? ==> r == fallback
    {
      match this
      case Ok(v) => v
      case Err(_) => fallback
    }
  }
}
