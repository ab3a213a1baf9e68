/** Option, used for the JavaScript `null`/`undefined` cases and for values that may be
    missing. */
module Wrappers {

  datatype Option<+T> = None | Some(value: T)
}
