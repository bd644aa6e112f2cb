/** The optional value used where the program either yields a value or fails. */
module Wrappers {

  datatype Option<+T> = None | Some(value: T)
}
