/** Option and Result, standing for Rust's `Option` and for the `Result`/panic
    outcomes of the fetch pipeline. */
module Wrappers {

  datatype Option<+T> = None | Some(value: T)

  datatype Result<+T, +E> = Ok(value: T) | Err(error: E)
}
