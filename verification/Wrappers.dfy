/** Option, for the source's `None`-able values. */
module Wrappers {
  datatype Option<+T> = None | Some(value: T)
}
