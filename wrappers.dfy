/** The optional value used for a status's message. */
module Wrappers {
  datatype Option<+T> = None | Some(value: T)
}
