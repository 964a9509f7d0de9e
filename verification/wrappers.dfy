/** The optional-value datatype used wherever the JavaScript code returns
    `null` or leaves a field `undefined`. */
module Wrappers {

  datatype Option<+T> = None | Some(value: T)
}
