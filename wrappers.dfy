/** The two result shapes the modelled code returns: Rust's `Option<T>` and `Result<T, E>`. */
module Wrappers {

  /** An optional value; in the vector's storage `None` is an uninitialised slot. */
  datatype Option<+T> = None | Some(value: T)

  /** A success value or an error value. The vector's checked operations return
      `Err(v)` carrying back the value they refused. */
  datatype Result<+R, +E> = Ok(value: R) | Err(error: E)
}
