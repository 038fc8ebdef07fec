/** Python's `None`-or-value, for the optional credentials. */
module Wrappers {

  datatype Option<+T> = None | Some(value: T)
}
