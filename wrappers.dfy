/** The Option type used throughout the model: None stands for a JavaScript
    `undefined` (a missing property, a missing request body, no row found). */
module Wrappers {
  datatype Option<+T> = None | Some(value: T)
}
