/** The optional-value datatype used for "construction fails" and "no empty cell". */
module Wrappers {
  datatype Option<+T> = None | Some(value: T)
}
