/**
 * The data-transfer records passed between the controller, the driver and
 * persistence. Their properties are read-only, so each is an immutable datatype.
 */
module Dtos {
  import opened Fields

  /**
   * GameDataDto: the five constructor arguments, returned unchanged by the
   * properties. The field is a reference to a Field, absent (None) for a new game.
   */
  datatype GameDataDto = GameDataDto(
    numberOfRows: int,
    numberOfColumns: int,
    isRandomFirstGeneration: bool,
    generation: int,
    gameField: Field?)

  /** NewGameDataDto: a game that does not exist yet, at generation 0 and with no field. */
  function NewGameData(rows: int, columns: int, isRandom: bool): (d: GameDataDto)
    ensures d.numberOfRows == rows && d.numberOfColumns == columns
    ensures d.isRandomFirstGeneration == isRandom
    ensures d.generation == 0 && d.gameField == null
  {
    GameDataDto(rows, columns, isRandom, 0, null)
  }

  /**
   * The shape shared by LoadGameDataDto and SaveGameDataDto: the dimensions are
   * taken from the field itself and the random flag is off.
   */
  predicate DescribesField(d: GameDataDto)
  {
    && d.gameField != null
    && d.numberOfRows == d.gameField.rows
    && d.numberOfColumns == d.gameField.columns
    && !d.isRandomFirstGeneration
  }

  /** LoadGameDataDto(generation, field). */
  function LoadGameData(generation: int, field: Field): (d: GameDataDto)
    ensures DescribesField(d)
    ensures d.generation == generation && d.gameField == field
  {
    GameDataDto(field.rows, field.columns, false, generation, field)
  }

  /** SaveGameDataDto(generation, field): built exactly as LoadGameDataDto is. */
  function SaveGameData(generation: int, field: Field): (d: GameDataDto)
    ensures DescribesField(d)
    ensures d.generation == generation && d.gameField == field
  {
    GameDataDto(field.rows, field.columns, false, generation, field)
  }

  /** GameStateDto: the field and generation of a running game. */
  datatype GameStateDto = GameStateDto(gameField: Field, generation: int)
}
