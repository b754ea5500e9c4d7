/** The optional-value datatype used for parsers and decoders that may fail. */
module Wrappers {
  datatype Option<+T> = None | Some(value: T)
}
