/** The optional value the code writes as `Option`. */
module Wrappers {
  datatype Option<+T> = None | Some(value: T)
}
