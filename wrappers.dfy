/** The optional value the model uses where Python yields `None` or a lookup misses. */
module Wrappers {
  datatype Option<T> = None | Some(value: T)
}
