/** Option, used for the error paths of the section builder. */
module Wrappers {

  datatype Option<+T> = None | Some(value: T)
}
