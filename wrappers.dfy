/** The outcome of a call into an outside service. */
module Wrappers {
  datatype Option<T> = None | Some(value: T)
}
