/** Present-or-absent values, used where the JavaScript source has
    `undefined` or a thrown exception. */
module Wrappers {
  datatype Option<+T> = None | Some(value: T)
}
