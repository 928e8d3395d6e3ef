/** The usual optional-value datatype, used for a filter string that may not parse. */
module Wrappers {

  datatype Option<+T> = None | Some(value: T)
}
