/** The optional value used for "not found" results throughout the model. */
module Wrappers {

  datatype Option<+T> = None | Some(value: T)
}
