/** The optional value used throughout the model for JavaScript's `undefined` / `null`. */
module Wrappers {
  datatype Option<+T> = None | Some(value: T)
}
