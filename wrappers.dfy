/** The optional value used wherever the JavaScript code tests for `null`,
    `undefined` or a missing property. */
module Wrappers {

  datatype Option<+T> = None | Some(value: T)
}
