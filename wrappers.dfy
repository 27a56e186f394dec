/** Optional values, standing for Rust's `Option<Box<Node>>`. */
module Wrappers {

  datatype Option<+T> = None | Some(value: T)
}
