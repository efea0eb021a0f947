/** The optional value returned by a regular-expression match. */
module Wrappers {

  datatype Option<+T> = None | Some(value: T)
}
