/** Result-like datatypes shared by the modules of this model. */
module Wrappers {

  /** Rust's `Option<T>`. */
  datatype Option<+T> = None | Some(value: T)

  /** Rust's `Result<T, E>`. */
  datatype Result<+T, +E> = Ok(value: T) | Err(error: E)

  /** The outcome of an operation that may `panic!`: either it returns a
      value, or it aborts (an index out of bounds, an arithmetic underflow
      on `usize`, an explicit `panic!`). */
  datatype Outcome<+T> = Completed(value: T) | Panicked
}
