/** The optional value used for "a record or nothing" and "a detail listing or nothing". */
module Wrappers {

  datatype Option<+T> = None | Some(value: T)
}
