/** The optional value used for a ref slot that React may set to `null`. */
module Wrappers {
  datatype Option<+T> = None | Some(value: T)
}
