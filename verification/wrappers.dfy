/** The optional value shared by the encoder's decoder and the painter's palette. */
module Wrappers {
  datatype Option<+T> = None | Some(value: T)
}
