/** The optional value used for absent query parameters and failed parses. */
module Wrappers {

  datatype Option<+T> = None | Some(value: T)
}
