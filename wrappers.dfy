/** The optional value used where the script returns an element or `undefined`. */
module Wrappers {

  datatype Option<+T> = None | Some(value: T)

}
