/** Option and Result, the two outcome shapes the derive macro works with:
    `Result` stands for Rust's `Result<T, syn::Error>`, `Option` for a value
    that may be absent. */
module Wrappers {

  datatype Option<+T> = None | Some(value: T)

  datatype Result<+T, +E> = Ok(value: T) | Err(error: E)
}
