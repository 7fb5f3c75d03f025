/** The optional value used for the engine's nullable piece and for the game-over report. */
module Wrappers {

  datatype Option<+T> = None | Some(value: T)
}
