/** The optional value returned by the searching functions of this project. */
module Wrappers {

  datatype Option<+T> = None | Some(value: T)
}
