/** Rust's `Option`, used for `strip_suffix` and for the reader's result. */
module Wrappers {

  datatype Option<+T> = None | Some(value: T)
}
