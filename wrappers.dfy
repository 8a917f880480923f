/** Rust's `Option`, as returned by `hit_test` and threaded through the nearest-hit fold. */
module Wrappers {
  datatype Option<+T> = None | Some(value: T)
}
