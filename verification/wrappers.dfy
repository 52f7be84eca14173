/** The optional-value type used for table lookups and fired callbacks. */
module Wrappers {

  datatype Option<+T> = None | Some(value: T)
}
