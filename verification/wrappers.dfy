/** The optional-value datatype used for nullable columns and query parameters. */
module Wrappers {

  datatype Option<+T> = None | Some(value: T)
}
