/** Failure-carrying datatypes used in place of Rust's `Option`, `Result`
    and the panics raised by `unwrap`/`expect`. */
module Wrappers {

  /** An optional value: `None` is Rust's `None`. */
  datatype Option<+T> = None | Some(value: T)

  /** A value or an error, as Rust's `Result<R, E>`. */
  datatype Result<+R, +E> = Success(value: R) | Failure(error: E)
}
