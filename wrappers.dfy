/** The optional value used wherever the source reads `undefined` or `null`. */
module Wrappers {

  datatype Option<+T> = None | Some(value: T)
}
