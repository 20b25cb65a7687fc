/** The optional value used wherever a C function can return NULL or "not found". */
module Wrappers {

  datatype Option<+T> = None | Some(value: T)
}
