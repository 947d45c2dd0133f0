/** The optional value used for dialog answers that the operator may cancel. */
module Wrappers {

  datatype Option<+T> = None | Some(value: T)
}
