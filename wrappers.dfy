/** Optional values, for the JavaScript `undefined` and for search results. */
module Wrappers {

  datatype Option<+T> = None | Some(value: T)

}
