/** The optional value returned by the reading side of the model. */
module Wrappers {

  datatype Option<+T> = None | Some(value: T)
}
