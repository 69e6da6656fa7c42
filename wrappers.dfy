/** The absent-or-present value used for optional record fields and lookups. */
module Wrappers {

  datatype Option<+T> = None | Some(value: T)
}
