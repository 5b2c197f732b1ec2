/** The optional value used for the face store file read at startup. */
module Wrappers {

  datatype Option<+T> = None | Some(value: T)
}
