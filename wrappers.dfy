/** Optional values: JavaScript's `null`/`undefined` where the application treats them as "absent". */
module Wrappers {

  datatype Option<+T> = None | Some(value: T)
}
