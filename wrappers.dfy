/** An optional value, for a value the JavaScript code may leave `null` or `undefined`. */
module Wrappers {

  datatype Option<+T> = None | Some(value: T)

}
