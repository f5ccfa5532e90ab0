/** The optional value used for the results of the text parsers. */
module Wrappers {

  datatype Option<+T> = None | Some(value: T)
}
