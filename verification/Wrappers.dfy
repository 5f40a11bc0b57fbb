/** What many modules need and none owns. */
module Wrappers {
  datatype Option<+T> = None | Some(value: T)
}
