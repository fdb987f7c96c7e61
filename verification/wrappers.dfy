/** Optional values: a JSON body field that is absent or null is `None`. */
module Wrappers {

  datatype Option<+T> = None | Some(value: T)
}
