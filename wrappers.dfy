/** The optional value shared by the decoder and the synchronisation model. */
module Wrappers {
  datatype Option<T> = None | Some(value: T)
}
