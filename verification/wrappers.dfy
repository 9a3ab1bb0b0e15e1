/** The optional value used throughout the model for JavaScript's `string | null`. */
module Wrappers {

  /** `None` plays the part of JavaScript's `null`. */
  datatype Option<+T> = None | Some(value: T)
}
