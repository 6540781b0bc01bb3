/** A NULL-or-value result: C functions of the allocator return NULL on failure. */
module Wrappers {
  datatype Option<+T> = None | Some(value: T)
}
