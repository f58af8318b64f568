/** Option and Result, the two shapes the Rust source returns: `Option<T>` and
    `Result<T, E>` (its `anyhow::Result` and `Result<_, String>` both become
    `Result<T, string>` here). */
module Wrappers {

  datatype Option<+T> = None | Some(value: T)

  datatype Result<+T, +E> = Ok(value: T) | Err(error: E)
}
