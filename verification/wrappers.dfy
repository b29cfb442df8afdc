/** The optional-value datatype shared by the model's modules. */
module Wrappers {

  /** A value that may be absent: JavaScript's `undefined`, `""` or a rejected step. */
  datatype Option<+T> = None | Some(value: T)
}
