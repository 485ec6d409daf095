/** The Option type used for results that may be absent (a failed parse,
    a malformed hex string). */
module Wrappers {

  datatype Option<+T> = None | Some(value: T)
}
