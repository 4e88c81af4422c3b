/** Optional values: a missing JSON field, a regular expression that did not
    match, a `reduce` that had nothing to reduce. */
module Wrappers {

  datatype Option<+T> = None | Some(value: T)
}
