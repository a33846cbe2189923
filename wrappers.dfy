/** The optional-value datatype used for every lookup that may find nothing. */
module Wrappers {
  datatype Option<+T> = None | Some(value: T)
}
