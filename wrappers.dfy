/** Rust's `Option`, the only failure type the modelled code uses. */
module Wrappers {

  datatype Option<+T> = None | Some(value: T)
}
