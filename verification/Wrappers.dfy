/** A value that may be missing, shared by the models. */
module Wrappers {
  datatype Option<+T> = None | Some(value: T)
}
