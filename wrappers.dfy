/** Rust's `Option` and the two ways a Rust call can end: by returning or by panicking. */
module Wrappers {

  datatype Option<+T> = None | Some(value: T)

  /** The outcome of a call that may panic instead of returning. */
  datatype Call<+T> = Panicked | Returned(value: T)
}
