/** An optional value: the source's pointers that may be NULL, and its negative return codes. */
module Wrappers {
  datatype Option<T> = None | Some(value: T)
}
