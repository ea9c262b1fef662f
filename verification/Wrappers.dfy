/** The optional value used wherever the crawler returns Rust's `Option`. */
module Wrappers {
  datatype Option<+T> = None | Some(value: T)
}
