/** The optional value the game uses for "no queued direction" and "no head". */
module Wrappers {
  datatype Option<+T> = None | Some(value: T)
}
