/** The optional value used for lookups that may find nothing (`find` returning `undefined`, a `null` slot). */
module Wrappers {

  datatype Option<+T> = None | Some(value: T)
}
