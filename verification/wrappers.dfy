/** The optional value used where the Go code returns a nil pointer or no error. */
module Wrappers {
  datatype Option<+T> = None | Some(value: T)
}
