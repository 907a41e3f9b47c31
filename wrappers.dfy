/** The optional value used for JavaScript's `null` and for omitted fields. */
module Wrappers {

  datatype Option<+T> = None | Some(value: T)
}
