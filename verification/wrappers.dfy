/** The optional value shared by the other modules. */
module Wrappers {

  /** A value that may be absent: the result of a lookup that may fail. */
  datatype Option<T> = None | Some(value: T)
}
