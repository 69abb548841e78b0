/** Results that may be missing, for Python's `None` and for raised errors. */
module Wrappers {
  datatype Option<+T> = None | Some(value: T)
}
