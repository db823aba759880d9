/** Option, for values that may be absent (a missing dict key, a call that raised). */
module Wrappers {
  datatype Option<+T> = None | Some(value: T)
}
