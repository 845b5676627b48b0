/** Failure-carrying results used across the model: `Option` for the places where
    the source calls `.ok()` or gets an `Option` back, and `Result` for its
    `crate::Result` returns. */
module Wrappers {

  datatype Option<+T> = None | Some(value: T)

  datatype Result<+T, +E> = Ok(value: T) | Err(error: E)
}
