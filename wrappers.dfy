/** The optional value used where the source keeps a possibly-null reference. */
module Wrappers {
  datatype Option<+T> = None | Some(value: T)
}
