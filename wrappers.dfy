/** The Option datatype used for "the file may be missing" and "the read may fail". */
module Wrappers {

  datatype Option<+T> = None | Some(value: T)
}
