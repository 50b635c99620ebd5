/** Option, for the places where the source returns `null` or a JavaScript
    value may be missing (`NaN` from `parseInt`, an element that is not there). */
module Wrappers {
  datatype Option<+T> = None | Some(value: T)
}
