/**
 * Neighbour counting of the current engine (GameFlowProcess._count_neighbours_for_cell)
 * as functions of the field's states, next to the ordinary clipped count.
 */
module Neighbours {
  import opened CellStates
  import opened Cells
  import opened Fields

  /** The eight offsets the count visits. */
  const Offsets: seq<(int, int)> := [(-1, -1), (-1, 0), (-1, 1), (0, -1), (0, 1), (1, -1), (1, 0), (1, 1)]

  /**
   * Whether the neighbour position (r2, c2) adds one to the count as the code is
   * written: the row test compares the column against rows, the column test
   * compares the column against columns, and a position that is not a key
   * raises KeyError, which is caught and skipped.
   */
  predicate Counted(states: map<(int, int), CellState>, rows: int, columns: int, r2: int, c2: int)
  {
    var isNotValidRow := r2 < 0 || c2 > rows;
    var isNotValidCol := c2 < 0 || c2 > columns;
    && !(isNotValidRow || isNotValidCol)
    && (r2, c2) in states
    && states[(r2, c2)] == Alive
  }

  /** How many of the positions (r, c) + offs are counted. */
  function AliveAmong(states: map<(int, int), CellState>, rows: int, columns: int,
                      r: int, c: int, offs: seq<(int, int)>): (n: nat)
    ensures n <= |offs|
  {
    if offs == [] then 0
    else
      var last := offs[|offs| - 1];
      AliveAmong(states, rows, columns, r, c, offs[..|offs| - 1])
        + (if Counted(states, rows, columns, r + last.0, c + last.1) then 1 else 0)
  }

  /** The count _count_neighbours_for_cell stores on the cell at (r, c). */
  function NeighbourCount(states: map<(int, int), CellState>, rows: int, columns: int,
                          r: int, c: int): (n: nat)
    ensures n <= 8
  {
    AliveAmong(states, rows, columns, r, c, Offsets)
  }

  /** The count of every cell of the field, as _count_neighbours_for_field stores them. */
  function NeighbourCounts(states: map<(int, int), CellState>, rows: int, columns: int)
    : (m: map<(int, int), NeighbourNumber>)
    ensures m.Keys == states.Keys
    ensures forall k :: k in m ==> m[k] == NeighbourCount(states, rows, columns, k.0, k.1)
  {
    map k | k in states :: NeighbourCount(states, rows, columns, k.0, k.1)
  }

  /**
   * On a field's key set, a position is counted exactly when it is inside the
   * field, its column is at most rows, and its cell is Alive.
   */
  lemma {:induction false} CountedIff(states: map<(int, int), CellState>, rows: int, columns: int, r2: int, c2: int)
    requires states.Keys == Grid(rows, columns)
    ensures Counted(states, rows, columns, r2, c2) <==>
              (0 <= r2 < rows && 0 <= c2 < columns && c2 <= rows && states[(r2, c2)] == Alive)
  {
    if 0 <= r2 < rows && 0 <= c2 < columns {
      assert (r2, c2) in Grid(rows, columns);
    }
  }

  /** The ordinary clipped test: inside [0, rows) x [0, columns) and Alive. */
  predicate InFieldAlive(states: map<(int, int), CellState>, rows: int, columns: int, r2: int, c2: int)
  {
    0 <= r2 < rows && 0 <= c2 < columns && (r2, c2) in states && states[(r2, c2)] == Alive
  }

  function ClippedAmong(states: map<(int, int), CellState>, rows: int, columns: int,
                        r: int, c: int, offs: seq<(int, int)>): (n: nat)
    ensures n <= |offs|
  {
    if offs == [] then 0
    else
      var last := offs[|offs| - 1];
      ClippedAmong(states, rows, columns, r, c, offs[..|offs| - 1])
        + (if InFieldAlive(states, rows, columns, r + last.0, c + last.1) then 1 else 0)
  }

  /** The count with the evidently intended bounds test: Alive neighbours inside the field. */
  function ClippedCount(states: map<(int, int), CellState>, rows: int, columns: int,
                        r: int, c: int): (n: nat)
    ensures n <= 8
  {
    ClippedAmong(states, rows, columns, r, c, Offsets)
  }

  lemma {:induction false} AmongAgree(states: map<(int, int), CellState>, rows: int, columns: int,
                                      r: int, c: int, offs: seq<(int, int)>)
    requires states.Keys == Grid(rows, columns)
    requires columns <= rows + 1
    ensures AliveAmong(states, rows, columns, r, c, offs) == ClippedAmong(states, rows, columns, r, c, offs)
  {
    if offs != [] {
      var last := offs[|offs| - 1];
      AmongAgree(states, rows, columns, r, c, offs[..|offs| - 1]);
      CountedIff(states, rows, columns, r + last.0, c + last.1);
    }
  }

  /**
   * When columns <= rows + 1 (square fields included) the code's count is the
   * ordinary clipped count.
   */
  lemma {:induction false} CountIsClippedOnNarrowFields(states: map<(int, int), CellState>, rows: int, columns: int,
                                                        r: int, c: int)
    requires states.Keys == Grid(rows, columns)
    requires columns <= rows + 1
    ensures NeighbourCount(states, rows, columns, r, c) == ClippedCount(states, rows, columns, r, c)
  {
    AmongAgree(states, rows, columns, r, c, Offsets);
  }

  lemma {:induction false} CountedImpliesInField(states: map<(int, int), CellState>, rows: int, columns: int,
                                                 r: int, c: int, offs: seq<(int, int)>)
    requires states.Keys == Grid(rows, columns)
    ensures AliveAmong(states, rows, columns, r, c, offs) <= ClippedAmong(states, rows, columns, r, c, offs)
  {
    if offs != [] {
      var last := offs[|offs| - 1];
      CountedImpliesInField(states, rows, columns, r, c, offs[..|offs| - 1]);
      CountedIff(states, rows, columns, r + last.0, c + last.1);
    }
  }

  /** The code never counts more than the clipped count: the quirk only ever skips neighbours. */
  lemma {:induction false} CountAtMostClipped(states: map<(int, int), CellState>, rows: int, columns: int,
                                              r: int, c: int)
    requires states.Keys == Grid(rows, columns)
    ensures NeighbourCount(states, rows, columns, r, c) <= ClippedCount(states, rows, columns, r, c)
  {
    CountedImpliesInField(states, rows, columns, r, c, Offsets);
  }

  /** Every cell of a rows x columns field in state s. */
  ghost function Uniform(rows: int, columns: int, s: CellState): (m: map<(int, int), CellState>)
    ensures m.Keys == Grid(rows, columns)
  {
    map k | k in Grid(rows, columns) :: s
  }

  lemma {:induction false} AliveAmongPrefix(states: map<(int, int), CellState>, rows: int, columns: int,
                                            r: int, c: int, offs: seq<(int, int)>, i: nat)
    requires 0 < i <= |offs|
    ensures AliveAmong(states, rows, columns, r, c, offs[..i])
            == AliveAmong(states, rows, columns, r, c, offs[..i - 1])
               + (if Counted(states, rows, columns, r + offs[i - 1].0, c + offs[i - 1].1) then 1 else 0)
  {
    assert offs[..i][..i - 1] == offs[..i - 1];
  }

  lemma {:induction false} ClippedAmongPrefix(states: map<(int, int), CellState>, rows: int, columns: int,
                                              r: int, c: int, offs: seq<(int, int)>, i: nat)
    requires 0 < i <= |offs|
    ensures ClippedAmong(states, rows, columns, r, c, offs[..i])
            == ClippedAmong(states, rows, columns, r, c, offs[..i - 1])
               + (if InFieldAlive(states, rows, columns, r + offs[i - 1].0, c + offs[i - 1].1) then 1 else 0)
  {
    assert offs[..i][..i - 1] == offs[..i - 1];
  }

  /** 1 for true, 0 for false. */
  function Indicator(b: bool): nat
  {
    if b then 1 else 0
  }

  lemma ClippedFirstFour(states: map<(int, int), CellState>, rows: int, columns: int, r: int, c: int)
    ensures ClippedAmong(states, rows, columns, r, c, Offsets[..4])
            == Indicator(InFieldAlive(states, rows, columns, r - 1, c - 1))
               + Indicator(InFieldAlive(states, rows, columns, r - 1, c))
               + Indicator(InFieldAlive(states, rows, columns, r - 1, c + 1))
               + Indicator(InFieldAlive(states, rows, columns, r, c - 1))
  {
    assert Offsets[..0] == [];
    ClippedAmongPrefix(states, rows, columns, r, c, Offsets, 1);
    ClippedAmongPrefix(states, rows, columns, r, c, Offsets, 2);
    ClippedAmongPrefix(states, rows, columns, r, c, Offsets, 3);
    ClippedAmongPrefix(states, rows, columns, r, c, Offsets, 4);
  }

  lemma ClippedLastFour(states: map<(int, int), CellState>, rows: int, columns: int, r: int, c: int)
    ensures ClippedAmong(states, rows, columns, r, c, Offsets[..8])
            == ClippedAmong(states, rows, columns, r, c, Offsets[..4])
               + Indicator(InFieldAlive(states, rows, columns, r, c + 1))
               + Indicator(InFieldAlive(states, rows, columns, r + 1, c - 1))
               + Indicator(InFieldAlive(states, rows, columns, r + 1, c))
               + Indicator(InFieldAlive(states, rows, columns, r + 1, c + 1))
  {
    ClippedAmongPrefix(states, rows, columns, r, c, Offsets, 5);
    ClippedAmongPrefix(states, rows, columns, r, c, Offsets, 6);
    ClippedAmongPrefix(states, rows, columns, r, c, Offsets, 7);
    ClippedAmongPrefix(states, rows, columns, r, c, Offsets, 8);
  }

  /** The clipped count written out as the sum over the eight neighbour positions. */
  lemma ClippedCountUnrolled(states: map<(int, int), CellState>, rows: int, columns: int, r: int, c: int)
    ensures ClippedCount(states, rows, columns, r, c)
            == Indicator(InFieldAlive(states, rows, columns, r - 1, c - 1))
               + Indicator(InFieldAlive(states, rows, columns, r - 1, c))
               + Indicator(InFieldAlive(states, rows, columns, r - 1, c + 1))
               + Indicator(InFieldAlive(states, rows, columns, r, c - 1))
               + Indicator(InFieldAlive(states, rows, columns, r, c + 1))
               + Indicator(InFieldAlive(states, rows, columns, r + 1, c - 1))
               + Indicator(InFieldAlive(states, rows, columns, r + 1, c))
               + Indicator(InFieldAlive(states, rows, columns, r + 1, c + 1))
  {
    ClippedFirstFour(states, rows, columns, r, c);
    ClippedLastFour(states, rows, columns, r, c);
    assert Offsets[..8] == Offsets;
  }

  /**
   * On a 10 x 12 field with every cell Alive, the cell (5, 10) has eight Alive
   * neighbours inside the field, but the code counts only five: the three in
   * column 11 fail the test "column > rows".
   */
  lemma WideFieldSkipsNeighbours()
    ensures InFieldAlive(Uniform(10, 12, Alive), 10, 12, 5, 11)
    ensures !Counted(Uniform(10, 12, Alive), 10, 12, 5, 11)
    ensures NeighbourCount(Uniform(10, 12, Alive), 10, 12, 5, 10) == 5
    ensures ClippedCount(Uniform(10, 12, Alive), 10, 12, 5, 10) == 8
  {
    UniformAlive(10, 12, 5, 11);
    WideFieldCount();
    WideFieldClippedCount();
  }

  /** The as-written count at (5, 10) of the all-Alive 10 x 12 field, offset by offset. */
  lemma WideFieldCount()
    ensures NeighbourCount(Uniform(10, 12, Alive), 10, 12, 5, 10) == 5
  {
    var s := Uniform(10, 12, Alive);
    for i := 1 to 9
      invariant AliveAmong(s, 10, 12, 5, 10, Offsets[..i - 1]) == [0, 1, 2, 2, 3, 3, 4, 5, 5][i - 1]
    {
      UniformAlive(10, 12, 5 + Offsets[i - 1].0, 10 + Offsets[i - 1].1);
      AliveAmongPrefix(s, 10, 12, 5, 10, Offsets, i);
    }
    assert Offsets[..8] == Offsets;
  }

  /** The clipped count at (5, 10) of the all-Alive 10 x 12 field: all eight neighbours. */
  lemma WideFieldClippedCount()
    ensures ClippedCount(Uniform(10, 12, Alive), 10, 12, 5, 10) == 8
  {
    var s := Uniform(10, 12, Alive);
    for i := 1 to 9
      invariant ClippedAmong(s, 10, 12, 5, 10, Offsets[..i - 1]) == i - 1
    {
      UniformAlive(10, 12, 5 + Offsets[i - 1].0, 10 + Offsets[i - 1].1);
      ClippedAmongPrefix(s, 10, 12, 5, 10, Offsets, i);
    }
    assert Offsets[..8] == Offsets;
  }

  lemma {:induction false} UniformAlive(rows: int, columns: int, r2: int, c2: int)
    ensures InFieldAlive(Uniform(rows, columns, Alive), rows, columns, r2, c2) <==> 0 <= r2 < rows && 0 <= c2 < columns
    ensures Counted(Uniform(rows, columns, Alive), rows, columns, r2, c2) <==> 0 <= r2 < rows && 0 <= c2 < columns && c2 <= rows
  {
    CountedIff(Uniform(rows, columns, Alive), rows, columns, r2, c2);
    if 0 <= r2 < rows && 0 <= c2 < columns {
      assert (r2, c2) in Grid(rows, columns);
    }
  }
}
