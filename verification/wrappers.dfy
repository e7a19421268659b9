/** Absence as a value. Every field of the modelled classes that may be
    `null` is an `Option`; a missing value is never replaced by a default. */
module Wrappers {

  datatype Option<+T> = None | Some(value: T)
}
