/** The optional-value type used where the source has `None` or an absent key. */
module Wrappers {
  datatype Option<T> = None | Some(value: T)
}
