/** Optional values, used where the page script tests for a missing match
    (`text.match` returning null, `indexOf` finding nothing). */
module Wrappers {

  datatype Option<+T> = None | Some(value: T)
}
