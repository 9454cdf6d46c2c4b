/** The optional value used wherever the source deals in `null` or `undefined`. */
module Wrappers {

  datatype Option<+T> = None | Some(value: T)
}
