/** Optional values, used where the source returns a value together with an
    `error` that is either nil or not. */
module Wrappers {

  datatype Option<+T> = None | Some(value: T)
}
