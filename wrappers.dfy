/** The nullable values of the JavaScript source: `null` (or a failed `match`) is `None`. */
module Wrappers {
  datatype Option<+T> = None | Some(value: T)
}
