/** Java's nullable references, where the source tests for null, become an Option. */
module Wrappers {
  datatype Option<T> = None | Some(value: T)
}
