/** The optional value that stands for a Go pointer or a lookup that may find nothing. */
module Wrappers {
  datatype Option<+T> = None | Some(value: T)
}
