/** The optional value used for "no such row", "no occurrence" and Python's None. */
module Wrappers {
  datatype Option<+T> = None | Some(value: T)
}
