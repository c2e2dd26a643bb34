/** The optional value used by the models of Python's string and path helpers. */
module Wrappers {
  datatype Option<+T> = None | Some(value: T)
}
