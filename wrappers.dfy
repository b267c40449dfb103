/** Small value wrappers shared by the other modules. */
module Wrappers {

  /** A value that may be absent: a nullable pointer, an optional result. */
  datatype Option<+T> = None | Some(value: T)
}
