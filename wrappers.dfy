/** The optional-value datatype used for Python's `None`-able arguments and results. */
module Wrappers {

  datatype Option<+T> = None | Some(value: T)
}
