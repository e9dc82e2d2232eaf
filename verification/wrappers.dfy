/** Wrappers mirroring Rust's `Option` and `Result`. */
module Wrappers {

  /** Rust's `Option<T>`. */
  datatype Option<+T> = None | Some(value: T)

  /** Rust's `Result<T, E>`; an `Err` also stands for a panic that ends the run. */
  datatype Result<+T, +E> = Ok(value: T) | Err(error: E)
}
