module Wrappers {
  // A pointer or a handle that may be null.
  datatype Option<+T> = None | Some(value: T)
}
