/** The absent-or-present value used for registry lookups and for the
    optional excluded socket of a broadcast. */
module Wrappers {
  datatype Option<+T> = None | Some(value: T)
}
