/** The optional value used for the failure path of the parsers in this project. */
module Wrappers {
  datatype Option<+T> = None | Some(value: T)
}
