/** The optional-value datatype used by the lookups of the model. */
module Wrappers {

  datatype Option<+T> = None | Some(value: T)
}
