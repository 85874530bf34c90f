/** An optional value, shared by the hash checker and the string replacement. */
module Wrappers {
  datatype Option<+T> = None | Some(value: T)
}
