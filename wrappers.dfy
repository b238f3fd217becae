/** A value that may be absent, for operations that can fail. */
module Wrappers {

  datatype Option<T> = None | Some(value: T)
}
