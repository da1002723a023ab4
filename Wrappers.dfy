/** The optional value used for "no result" (a failed detection, an empty list-box selection). */
module Wrappers {

  datatype Option<+T> = None | Some(value: T)
}
