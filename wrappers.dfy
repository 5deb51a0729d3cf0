/** The absent-or-present value that stands for a nullable pointer of the C library. */
module Wrappers {

  datatype Option<+T> = None | Some(value: T)
}
