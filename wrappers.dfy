/** The usual optional-value datatype, used for absent tags and for "no match". */
module Wrappers {

  datatype Option<+T> = None | Some(value: T)
}
