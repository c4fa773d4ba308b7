/** Optional values and results shared by all modules (JavaScript `null`/`undefined`,
  * Rust `Option`/`Result`). */
module Wrappers {
  datatype Option<+T> = None | Some(value: T)

  datatype Result<+T, +E> = Ok(value: T) | Err(error: E)
}
