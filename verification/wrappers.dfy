/** Failure-compatible result types shared by every module of the model:
    `Option` stands for Rust's `Option`, `Result` for Rust's `Result`. */
module Wrappers {

  datatype Option<+T> = None | Some(value: T)

  datatype Result<+R, +E> = Ok(value: R) | Err(error: E)
}
