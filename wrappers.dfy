module Wrappers {
  /** A value that may be missing: a `find` that matched nothing, a storage
      key or DOM attribute that was never set. */
  datatype Option<T> = None | Some(value: T)
}
