/** The optional value of a dialog that the user may cancel, or of a search that may find nothing. */
module Wrappers {

  datatype Option<+T> = None | Some(value: T)
}
