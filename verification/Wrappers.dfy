/** Optional values: a field that a pattern did not match is `None`
    (Python's `None` in the parsed record). */
module Wrappers {

  datatype Option<+T> = None | Some(value: T)

}
