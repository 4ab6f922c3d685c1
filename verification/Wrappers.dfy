/** The Option datatype used by every model in this project. */
module Wrappers {
  datatype Option<+T> = None | Some(value: T)
}
