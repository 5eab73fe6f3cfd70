/** The optional value used for the game's nullable fields (`finalTime`, the refs). */
module Wrappers {
  datatype Option<+T> = None | Some(value: T)
}
