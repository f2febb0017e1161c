/**
 A value that may be missing, for results that stand for an exception.
 */
module Wrappers {
  datatype Option<T> = None | Some(value: T)
}
