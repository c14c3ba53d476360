/** Python's `None`-or-value, used for optional dictionary keys, missing page
    elements and failed look-ups. */
module Wrappers {
  datatype Option<T> = None | Some(value: T)
}
