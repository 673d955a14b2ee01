/** The optional value used wherever a JavaScript routine yields `-1`, `null` or nothing. */
module Wrappers {

  datatype Option<+T> = None | Some(value: T)
}
