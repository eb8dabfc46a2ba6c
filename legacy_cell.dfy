/**
 * The cell of the legacy engine: a position fixed at construction and a state
 * that only the three setters change. Unlike the current engine's cell it
 * checks no coordinate and caches no neighbour count.
 */
module LegacyCells {
  import opened CellStates

  class GameLifeCell {
    const row: int
    const col: int
    var state: CellState

    /** GameLifeCell(row, col, state): any coordinates are accepted as they are. */
    constructor(row: int, col: int, state: CellState)
      ensures this.row == row && this.col == col && this.state == state
    {
      this.row := row;
      this.col := col;
      this.state := state;
    }

    /** change_state(s): the state becomes s. */
    method ChangeState(state: CellState)
      modifies this
      ensures this.state == state
    {
      this.state := state;
    }

    /** make_alive: the state becomes Alive, whatever it was. */
    method MakeAlive()
      modifies this
      ensures state == Alive
    {
      ChangeState(Alive);
    }

    /** make_dead: the state becomes Dead, whatever it was. */
    method MakeDead()
      modifies this
      ensures state == Dead
    {
      ChangeState(Dead);
    }
  }
}
