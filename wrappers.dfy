/** The optional-value datatype used for nulls and for outcomes of foreign calls that may fail. */
module Wrappers {

  datatype Option<+T> = None | Some(value: T)
}
