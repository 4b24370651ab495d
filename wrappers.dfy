/** Rust's `Option`, used wherever the engine returns "a handle or nothing". */
module Wrappers {

  datatype Option<+T> = None | Some(value: T)

}
