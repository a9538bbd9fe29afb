/** Optional values, for JavaScript's `undefined` and for foreign calls that
    may fail. */
module Wrappers {

  datatype Option<T> = None | Some(value: T)
}
