/** The optional value of Python's `None`-or-value idiom. */
module Wrappers {

  datatype Option<+T> = None | Some(value: T)
}
