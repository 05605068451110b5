/** Python's `None`-or-value, used for nullable columns and optional arguments. */
module Wrappers {

  datatype Option<+T> = None | Some(value: T)
}
