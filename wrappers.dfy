/** The optional value that Rust writes as `Option<T>`. */
module Wrappers {

  datatype Option<+T> = None | Some(value: T)
}
