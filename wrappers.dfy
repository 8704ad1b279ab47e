/** The optional value used wherever an operation of the contact book can end without a result. */
module Wrappers {

  datatype Option<+T> = None | Some(value: T)
}
