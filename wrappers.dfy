/** The optional value shared by the codec, the server and the grep scan. */
module Wrappers {
  datatype Option<T> = None | Some(value: T)
}
