/** Option, for results that may be absent (a rejected record, a missing token). */
module Wrappers {

  datatype Option<T> = None | Some(value: T)
}
