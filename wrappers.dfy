/** The optional value used where the page leaves a variable unset. */
module Wrappers {

  datatype Option<+T> = None | Some(value: T)
}
