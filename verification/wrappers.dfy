/** The optional value used where a computation may have no result. */
module Wrappers {
  datatype Option<T> = None | Some(value: T)
}
