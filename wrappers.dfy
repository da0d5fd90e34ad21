/** An optional value: an in/out pointer that may be NULL, an attribute that may be unset. */
module Wrappers {
  datatype Option<T> = None | Some(value: T)
}
