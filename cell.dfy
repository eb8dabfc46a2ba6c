/** One position of the game field (class Cell of the current engine). */
module Cells {
  import opened CellStates
  import opened Exceptions

  /** The values a cached neighbour count may hold. */
  type NeighbourNumber = n: int | 0 <= n <= 8

  /** The coordinate check done twice by the constructor. */
  function ValidateCoordinate(value: int): (o: Outcome)
    ensures o.Pass? <==> value >= 0
    ensures o.Fail? ==> o.error == CoordinateValue
  {
    if value < 0 then Fail(CoordinateValue) else Pass
  }

  /** The validation done by the neighbours setter; None is Python's None. */
  function ValidateNeighbours(value: Option<int>): (o: Outcome)
    ensures o.Pass? <==> value.Some? && 0 <= value.value <= 8
    ensures o.Fail? ==> o.error == NeighboursNumber
  {
    if value.None? || !(0 <= value.value <= 8) then Fail(NeighboursNumber) else Pass
  }

  class Cell {
    const row: nat
    const column: nat
    var state: CellState
    var neighbours: NeighbourNumber

    /** The constructor once both coordinates have passed validation. */
    constructor (row: nat, column: nat, state: CellState)
      ensures this.row == row && this.column == column
      ensures this.state == state && neighbours == 0
    {
      this.row := row;
      this.column := column;
      this.state := state;
      neighbours := 0;
    }

    /** Cell(row, column, state): rejects a negative row or column. */
    static method Create(row: int, column: int, state: CellState) returns (r: Result<Cell>)
      ensures r.Failure? <==> row < 0 || column < 0
      ensures r.Failure? ==> r.error == CoordinateValue
      ensures r.Success? ==> fresh(r.value)
      ensures r.Success? ==> r.value.row == row && r.value.column == column
      ensures r.Success? ==> r.value.state == state && r.value.neighbours == 0
    {
      var v := ValidateCoordinate(row);
      if v.Fail? {
        return Failure(v.error);
      }
      v := ValidateCoordinate(column);
      if v.Fail? {
        return Failure(v.error);
      }
      var cell := new Cell(row, column, state);
      r := Success(cell);
    }

    /** The state setter: an unconditional overwrite. */
    method SetState(value: CellState)
      modifies this
      ensures state == value
      ensures neighbours == old(neighbours)
    {
      state := value;
    }

    /** The neighbours setter: rejects None and values outside 0..8, keeping the old count. */
    method SetNeighbours(value: Option<int>) returns (o: Outcome)
      modifies this
      ensures o == ValidateNeighbours(value)
      ensures neighbours == if o.Pass? then value.value else old(neighbours)
      ensures state == old(state)
    {
      o := ValidateNeighbours(value);
      if o.Pass? {
        neighbours := value.value;
      }
    }
  }
}
