/** Optional values: the model's stand-in for C# `null` and for `int?`/`DateTime?`. */
module Wrappers {

  datatype Option<+T> = None | Some(value: T)
}
