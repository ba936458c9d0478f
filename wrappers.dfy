/** The optional value used where the source returns null or a lookup can fail. */
module Wrappers {

  datatype Option<+T> = None | Some(value: T)
}
