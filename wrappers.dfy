/** The optional value used for lookups that may miss and for callbacks that may return null. */
module Wrappers {

  datatype Option<+T> = None | Some(value: T)
}
