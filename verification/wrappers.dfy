/** The optional value used for missing cells and failed parses. */
module Wrappers {

  datatype Option<+T> = None | Some(value: T)
}
