/** A value that may be missing: a null pointer, an absent entry, a failed assertion. */
module Wrappers {
  datatype Option<+T> = None | Some(value: T)
}
