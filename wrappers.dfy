/** The optional value shared by the archive model. */
module Wrappers {

  /** A value that may be absent: the model's stand-in for a null pointer result. */
  datatype Option<+T> = None | Some(value: T)
}
