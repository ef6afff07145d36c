/** The optional-value datatype used for the matcher's result. */
module Wrappers {

  datatype Option<+T> = None | Some(value: T)
}
