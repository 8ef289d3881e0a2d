/** The optional value used throughout the model in place of JavaScript's
    `null` and `undefined`. */
module Wrappers {

  datatype Option<+T> = None | Some(value: T)
}
