/** Optional values, standing in for the `null` the Java code tests for
    (a missing `uri` tag, a missing query string, an unset configuration key). */
module Wrappers {

  datatype Option<+T> = None | Some(value: T)
}
