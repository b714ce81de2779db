/** Optional values, used for the JavaScript `undefined`/`NaN` cases and
    for calls that throw. */
module Wrappers {

  datatype Option<+T> = None | Some(value: T)
}
