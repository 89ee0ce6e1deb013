/** The Option type used for parse results and optional lookups. */
module Wrappers {
  datatype Option<+T> = None | Some(value: T)
}
