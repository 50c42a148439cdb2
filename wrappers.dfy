/** The optional value used wherever PHP returns null or a missing entry. */
module Wrappers {

  datatype Option<+T> = None | Some(value: T)
}
