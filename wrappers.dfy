/** A value that may be missing: a pandas NaN cell, a Python `None`. */
module Wrappers {
  datatype Option<+T> = None | Some(value: T)
}
