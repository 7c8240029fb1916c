/** Optional values: PHP's nullable `?string` and "maybe a file write". */
module Wrappers {

  datatype Option<+T> = None | Some(value: T)
}
