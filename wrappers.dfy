/** The optional value used for "the first input may have no channel". */
module Wrappers {

  datatype Option<+T> = None | Some(value: T)
}
