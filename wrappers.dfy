/** Optional values, for the places where the Go code either has a value or fails. */
module Wrappers {
  datatype Option<T> = None | Some(value: T)
}
