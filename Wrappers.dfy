/** The optional value used for a field that may or may not hold a value. */
module Wrappers {

  datatype Option<+T> = None | Some(value: T)
}
