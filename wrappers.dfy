/** Small failure-carrying datatype shared by the other modules. */
module Wrappers {

  /** A present-or-absent value: the model's stand-in for a C pointer that may be NULL. */
  datatype Option<+T> = None | Some(value: T)
}
