/** The Option type used for values that may be absent (a JavaScript `null`, or a `NaN` from `parseFloat`). */
module Wrappers {
  datatype Option<+T> = None | Some(value: T)
}
