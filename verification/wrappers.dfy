/** The optional value returned by every scanning function that may find no match. */
module Wrappers {

  datatype Option<+T> = None | Some(value: T)
}
