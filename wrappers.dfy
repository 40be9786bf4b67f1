/** An optional value: what the engine's lookups return when an input means nothing. */
module Wrappers {
  datatype Option<+T> = None | Some(value: T)
}
