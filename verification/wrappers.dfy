/** The optional value used wherever the explorer works with `null`/`undefined`. */
module Wrappers {

  datatype Option<+T> = None | Some(value: T)
}
