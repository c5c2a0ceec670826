/** The optional value used where the source returns a null pointer or `false`. */
module Wrappers {
  datatype Option<+T> = None | Some(value: T)
}
