/** The optional value that Rust's `Option` denotes. */
module Wrappers {

  datatype Option<+T> = None | Some(value: T)
}
