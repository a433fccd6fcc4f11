/** A value that may be missing: a null pointer, an absent fact, an error that was not set. */
module Wrappers {
  datatype Option<T> = None | Some(value: T)
}
