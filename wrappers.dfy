/** The optional value returned by the device search (Python's `None` or an index). */
module Wrappers {
  datatype Option<+T> = None | Some(value: T)
}
