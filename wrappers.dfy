/** The optional value used for a row lookup that may find nothing. */
module Wrappers {

  datatype Option<+T> = None | Some(value: T)
}
