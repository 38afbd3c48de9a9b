/** The Option type used for dictionary lookups that may miss. */
module Wrappers {

  datatype Option<+T> = None | Some(value: T)
}
