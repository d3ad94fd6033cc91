/** Optional values: the model's stand-in for C#'s nullable `Point?`, `string?` and `BitmapSource`-or-null. */
module Wrappers {
  datatype Option<+T> = None | Some(value: T)
}
