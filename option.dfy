/** The optional value used for Python's `None`-or-value variables. */
module Opt {

  datatype Option<+T> = None | Some(value: T)
}
