/** Python's `None` and the optional values built from it. */
module Wrappers {

  datatype Option<+T> = None | Some(value: T)
}
