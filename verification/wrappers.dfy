/** An optional value, shared by the other modules. */
module Wrappers {

  /** A value that may be absent: the decoder's "not well-formed" answer. */
  datatype Option<+T> = None | Some(value: T)
}
