/** The optional value returned by a lookup that can find nothing. */
module Wrappers {
  datatype Option<+T> = None | Some(value: T)
}
