/** The optional value the quiz uses for `null`/`undefined` fields and failed lookups. */
module Wrappers {
  datatype Option<T> = None | Some(value: T)
}
