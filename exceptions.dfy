/**
 * The engine's exceptions, as values. Every operation that can raise one of
 * them returns a Result or an Outcome instead.
 */
module Exceptions {

  datatype GameError =
    | CoordinateValue     // a negative cell coordinate
    | NeighboursNumber    // a neighbour count that is absent or outside 0..8
    | GameFieldSize       // a field dimension that is absent or below 10
    | GenerationValue     // a negative generation number
    | CellLookup          // a coordinate that is not a key of the field (KeyError)
    | NoGameRunning       // a controller operation that needs a game, called on none
    | SaveNotFound        // a persisted game name that is not in the store

  datatype Result<+T> = Success(value: T) | Failure(error: GameError)

  datatype Outcome = Pass | Fail(error: GameError)

  /** An argument that Python allows to be None. */
  datatype Option<+T> = None | Some(value: T)
}
