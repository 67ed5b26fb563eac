/** The optional-value datatype used for "no action" results. */
module Wrappers {

  /** `Some(v)` carries a value; `None` stands for the source's `null`. */
  datatype Option<T> = None | Some(value: T)
}
