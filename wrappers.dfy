/** Python's `None` next to a value, as the reviewed script returns it. */
module Wrappers {
  datatype Option<+T> = None | Some(value: T)
}
