/** The optional value used where JavaScript yields `undefined` or `-1`. */
module Wrappers {

  datatype Option<+T> = None | Some(value: T)
}
