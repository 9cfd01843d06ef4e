/** The optional value PHP writes as `?T` / `null`. */
module Wrappers {
  datatype Option<+T> = None | Some(value: T)
}
