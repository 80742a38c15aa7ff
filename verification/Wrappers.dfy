/** Datatypes shared by the models. */
module Wrappers {
  datatype Option<+T> = None | Some(value: T)
}
