/** Option and Result: the model's stand-ins for Rust's `Option` and for the
    panics and error returns of the core. */
module Wrappers {

  datatype Option<+T> = None | Some(value: T)

  datatype Result<+R, +E> = Success(value: R) | Failure(error: E)
}
