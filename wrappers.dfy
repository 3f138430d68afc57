/** Rust's `Option`, used for optional addresses and for "nothing found". */
module Wrappers {
  datatype Option<+T> = None | Some(value: T)
}
