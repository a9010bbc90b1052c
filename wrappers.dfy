/** The optional value used for "no table" and "no download offered". */
module Wrappers {
  datatype Option<+T> = None | Some(value: T)
}
