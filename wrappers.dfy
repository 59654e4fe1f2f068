/** The optional value used for the C code's nullable results. */
module Wrappers {
  datatype Option<+T> = None | Some(value: T)
}
