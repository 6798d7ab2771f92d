/** Optional values and fallible results, the shapes of Rust's `Option` and of a
    computation that panics. */
module Wrappers {

  datatype Option<+T> = None | Some(value: T)

  datatype Result<+T, +E> = Ok(value: T) | Err(error: E)
}
