/** The optional value used for operations that can fail, such as hex decoding. */
module Wrappers {

  datatype Option<+T> = None | Some(value: T)
}
