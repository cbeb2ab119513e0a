/** The conventional optional value, standing in for a possibly-null pointer. */
module Wrappers {

  datatype Option<+T> = None | Some(value: T)
}
