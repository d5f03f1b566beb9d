/** Optional values: used for a lookup that may find nothing and for a
    request field that may be absent from the request body. */
module Wrappers {

  datatype Option<+T> = None | Some(value: T)
}
