/** The optional value used for Slate's nullable results (selection, first match, marks). */
module Wrappers {
  datatype Option<+T> = None | Some(value: T)
}
