/** The optional value used where the source returns a record or nil. */
module Wrappers {
  datatype Option<+T> = None | Some(value: T)
}
