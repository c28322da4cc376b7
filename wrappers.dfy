/** The optional value used for fields that may be missing and for operations
    that can fail. */
module Wrappers {
  datatype Option<+T> = None | Some(value: T)
}
