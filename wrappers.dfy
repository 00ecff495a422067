/** A value that may be absent: a null pointer, a missing table entry, a
    callback that returned nothing. */
module Wrappers {
  datatype Option<T> = None | Some(value: T)
}
