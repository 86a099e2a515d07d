/** The optional value used wherever a C routine reports failure by a return code. */
module Wrappers {

  datatype Option<+T> = None | Some(value: T)
}
