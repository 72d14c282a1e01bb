/** The `Option` the lookups of the model return. */
module Wrappers {

  /** `Some(v)` for a document or match that was found, `None` otherwise. */
  datatype Option<+T> = None | Some(value: T)
}
