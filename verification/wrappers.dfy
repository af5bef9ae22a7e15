/** A value that may be missing: the program's (value, ok) pairs and nil pointers. */
module Wrappers {
  datatype Option<T> = None | Some(value: T)
}
