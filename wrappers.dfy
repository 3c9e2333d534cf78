/** The optional value used for operations of the scanner that may fail. */
module Wrappers {
  datatype Option<+T> = None | Some(value: T)
}
