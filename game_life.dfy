/**
 * The legacy engine, GameLife: a list of rows of GameLifeCell objects that
 * create_new_generation updates in place, cell after cell in row-major order,
 * each cell counted against the grid as the sweep has left it so far.
 */
module LegacyGame {
  import opened CellStates
  import opened Fields
  import opened Neighbours
  import opened Rules
  import opened Cells
  import opened LegacyCells

  /** len(range(n)): how many rows or columns a size n yields. */
  function Extent(n: int): nat
  {
    if n > 0 then n else 0
  }

  /**
   * The state _apply_rules_and_change_state leaves on a cell in state s with n
   * Alive neighbours: an Alive cell dies below 2, lives on 2 or 3 and dies
   * above 3; a Dead cell comes alive on exactly 3 and otherwise stays Dead.
   */
  function LegacyRule(s: CellState, n: int): CellState
  {
    match s
    case Alive => if n < 2 then Dead else if n < 4 then Alive else Dead
    case Dead => if n == 3 then Alive else Dead
  }

  /** On every count a cell can have, the legacy rule is the current engine's rule. */
  lemma LegacyRuleIsNextState(s: CellState, n: NeighbourNumber)
    ensures LegacyRule(s, n) == NextState(s, n)
  {
  }

  /** The legacy rule is birth on 3, survival on 2 or 3, for every integer count. */
  lemma LegacyRuleIsB3S23(s: CellState, n: int)
    ensures LegacyRule(s, n) == Alive <==> n == 3 || (s == Alive && n == 2)
  {
  }

  /** The states after _change_cell_state: every listed coordinate of the grid takes state s. */
  function Changed(states: map<(int, int), CellState>, coordinates: seq<(int, int)>, s: CellState)
    : (m: map<(int, int), CellState>)
    ensures m.Keys == states.Keys
  {
    map k | k in states :: if k in coordinates then s else states[k]
  }

  /** Setting the same coordinates twice leaves what the second call set. */
  lemma ChangedLastWins(states: map<(int, int), CellState>, coordinates: seq<(int, int)>, s: CellState, t: CellState)
    ensures Changed(Changed(states, coordinates, s), coordinates, t) == Changed(states, coordinates, t)
  {
  }

  /** A coordinate outside the grid is ignored: listing it changes nothing. */
  lemma {:induction false} ChangedIgnoresOutside(states: map<(int, int), CellState>, coordinates: seq<(int, int)>,
                                                 k: (int, int), s: CellState)
    requires k !in states
    ensures Changed(states, coordinates + [k], s) == Changed(states, coordinates, s)
  {
    forall j | j in states
      ensures (j in coordinates + [k]) == (j in coordinates)
    {
      assert j != k;
    }
  }

  /** One step of create_new_generation: the cell at k takes the rule's state for the grid as it stands. */
  ghost function Step(states: map<(int, int), CellState>, rows: int, columns: int, k: (int, int))
    : map<(int, int), CellState>
  {
    if k in states then states[k := LegacyRule(states[k], ClippedCount(states, rows, columns, k.0, k.1))]
    else states
  }

  /** The steps for the coordinates of order, taken one after another. */
  ghost function Sweep(states: map<(int, int), CellState>, rows: int, columns: int, order: seq<(int, int)>)
    : (m: map<(int, int), CellState>)
    ensures m.Keys == states.Keys
  {
    if order == [] then states
    else Step(Sweep(states, rows, columns, order[..|order| - 1]), rows, columns, order[|order| - 1])
  }

  /**
   * The grid after create_new_generation has visited every row before r and
   * the first c cells of row r.
   */
  ghost function SweepTo(states: map<(int, int), CellState>, rows: nat, columns: nat, r: nat, c: nat)
    : (m: map<(int, int), CellState>)
    ensures m.Keys == states.Keys
    decreases r, c
  {
    if c > 0 then Step(SweepTo(states, rows, columns, r, c - 1), rows, columns, (r, c - 1))
    else if r > 0 then SweepTo(states, rows, columns, r - 1, columns)
    else states
  }

  /** The coordinates of row r in column order. */
  function RowOrder(r: int, columns: nat): (o: seq<(int, int)>)
    ensures |o| == columns
    ensures forall j :: 0 <= j < columns ==> o[j] == (r, j)
  {
    if columns == 0 then [] else RowOrder(r, columns - 1) + [(r, columns - 1)]
  }

  /** The order for row in self.field: for cell in row visits the grid: row after row, each in column order. */
  function RowMajor(rows: nat, columns: nat): seq<(int, int)>
  {
    if rows == 0 then [] else RowMajor(rows - 1, columns) + RowOrder(rows - 1, columns)
  }

  /** Row-major order visits exactly the coordinates of the grid. */
  lemma {:induction false} RowMajorVisitsGrid(rows: nat, columns: nat)
    ensures forall k :: k in RowMajor(rows, columns) <==> 0 <= k.0 < rows && 0 <= k.1 < columns
  {
    if rows > 0 {
      RowMajorVisitsGrid(rows - 1, columns);
      forall k: (int, int) | k.0 == rows - 1 && 0 <= k.1 < columns
        ensures k in RowOrder(rows - 1, columns)
      {
        assert RowOrder(rows - 1, columns)[k.1] == k;
      }
    }
  }

  lemma SweepAppend(states: map<(int, int), CellState>, rows: int, columns: int, order: seq<(int, int)>, k: (int, int))
    ensures Sweep(states, rows, columns, order + [k]) == Step(Sweep(states, rows, columns, order), rows, columns, k)
  {
    assert (order + [k])[..|order|] == order;
  }

  lemma {:induction false} NoneAliveAmong(states: map<(int, int), CellState>, rows: int, columns: int,
                                          r: int, c: int, offs: seq<(int, int)>)
    requires forall k :: k in states ==> states[k] == Dead
    ensures ClippedAmong(states, rows, columns, r, c, offs) == 0
  {
    if offs != [] {
      NoneAliveAmong(states, rows, columns, r, c, offs[..|offs| - 1]);
    }
  }

  /** A field with no Alive cell stays that way through any sweep. */
  lemma {:induction false} DeadFieldIsFixed(states: map<(int, int), CellState>, rows: int, columns: int,
                                            order: seq<(int, int)>)
    requires forall k :: k in states ==> states[k] == Dead
    ensures Sweep(states, rows, columns, order) == states
  {
    if order != [] {
      DeadFieldIsFixed(states, rows, columns, order[..|order| - 1]);
      var k := order[|order| - 1];
      if k in states {
        NoneAliveAmong(states, rows, columns, k.0, k.1, Offsets);
        assert states[k := LegacyRule(states[k], 0)] == states;
      }
    }
  }

  lemma ConcatSnoc(xs: seq<(int, int)>, ys: seq<(int, int)>, k: (int, int))
    ensures xs + (ys + [k]) == (xs + ys) + [k]
  {
  }

  /** One pass of the loop of _count_amount_alive_neighbour extends the count by the next offset. */
  lemma CountStep(states: map<(int, int), CellState>, rows: int, columns: int, r: int, c: int,
                  i: nat, n: nat, alive: bool)
    requires i < 8 && n == ClippedAmong(states, rows, columns, r, c, Offsets[..i])
    requires alive == InFieldAlive(states, rows, columns, r + Offsets[i].0, c + Offsets[i].1)
    ensures n + Indicator(alive) == ClippedAmong(states, rows, columns, r, c, Offsets[..i + 1])
  {
    ClippedAmongPrefix(states, rows, columns, r, c, Offsets, i + 1);
  }

  /** SweepTo at (r, c) is the sweep over every coordinate row-major order visits before (r, c). */
  lemma {:induction false} SweepToIsRowMajorSweep(states: map<(int, int), CellState>, rows: nat, columns: nat,
                                                  r: nat, c: nat)
    requires c <= columns
    ensures SweepTo(states, rows, columns, r, c) == Sweep(states, rows, columns, RowMajor(r, columns) + RowOrder(r, c))
    decreases r, c
  {
    if c > 0 {
      SweepToIsRowMajorSweep(states, rows, columns, r, c - 1);
      SweepAppend(states, rows, columns, RowMajor(r, columns) + RowOrder(r, c - 1), (r, c - 1));
      ConcatSnoc(RowMajor(r, columns), RowOrder(r, c - 1), (r, c - 1));
    } else if r > 0 {
      SweepToIsRowMajorSweep(states, rows, columns, r - 1, columns);
      assert RowOrder(r, 0) == [];
      assert RowMajor(r, columns) + [] == RowMajor(r - 1, columns) + RowOrder(r - 1, columns);
    } else {
      assert RowMajor(0, columns) + RowOrder(0, 0) == [];
    }
  }

  predicate AllDead(states: map<(int, int), CellState>)
  {
    forall k :: k in states ==> states[k] == Dead
  }

  /** Once the sweep has left no Alive cell, every later position of the sweep has none either. */
  lemma {:induction false} SweepStaysDead(states: map<(int, int), CellState>, rows: nat, columns: nat,
                                          r0: nat, c0: nat, r: nat, c: nat)
    requires c0 <= columns
    requires r0 < r || (r0 == r && c0 <= c)
    requires AllDead(SweepTo(states, rows, columns, r0, c0))
    ensures AllDead(SweepTo(states, rows, columns, r, c))
    decreases r, c
  {
    if r == r0 && c == c0 {
    } else if c > 0 {
      SweepStaysDead(states, rows, columns, r0, c0, r, c - 1);
      var m := SweepTo(states, rows, columns, r, c - 1);
      if (r, c - 1) in m {
        NoneAliveAmong(m, rows, columns, r, c - 1, Offsets);
        assert m[(r, c - 1) := LegacyRule(m[(r, c - 1)], 0)] == m;
      }
    } else {
      SweepStaysDead(states, rows, columns, r0, c0, r - 1, columns);
    }
  }

  /** The 4 x 5 grid of the legacy tests with the top-row cells (0, 0), (0, 1), (0, 2) Alive. */
  ghost function TopRowTriple(): map<(int, int), CellState>
  {
    Changed(Uniform(4, 5, Dead), [(0, 0), (0, 1), (0, 2)], Alive)
  }

  /** The first step of the sweep: (0, 0) sees one Alive neighbour, (0, 1), and dies. */
  lemma TopRowTripleFirstStep()
    ensures SweepTo(TopRowTriple(), 4, 5, 0, 1) == TopRowTriple()[(0, 0) := Dead]
  {
    var s0 := TopRowTriple();
    assert (0, 0) in Grid(4, 5) && (0, 1) in Grid(4, 5) && (1, 0) in Grid(4, 5) && (1, 1) in Grid(4, 5);
    ClippedCountUnrolled(s0, 4, 5, 0, 0);
    assert ClippedCount(s0, 4, 5, 0, 0) == 1;
  }

  /** The second step: (0, 1) now sees only (0, 2) and dies. */
  lemma TopRowTripleSecondStep()
    ensures SweepTo(TopRowTriple(), 4, 5, 0, 2) == TopRowTriple()[(0, 0) := Dead][(0, 1) := Dead]
  {
    var s1 := TopRowTriple()[(0, 0) := Dead];
    TopRowTripleFirstStep();
    assert (0, 0) in Grid(4, 5) && (0, 1) in Grid(4, 5) && (0, 2) in Grid(4, 5);
    assert (1, 0) in Grid(4, 5) && (1, 1) in Grid(4, 5) && (1, 2) in Grid(4, 5);
    ClippedCountUnrolled(s1, 4, 5, 0, 1);
    assert ClippedCount(s1, 4, 5, 0, 1) == 1;
  }

  /** The third step: (0, 2) sees no Alive neighbour and dies, leaving no Alive cell. */
  lemma TopRowTripleThirdStep()
    ensures AllDead(SweepTo(TopRowTriple(), 4, 5, 0, 3))
  {
    var s2 := TopRowTriple()[(0, 0) := Dead][(0, 1) := Dead];
    TopRowTripleSecondStep();
    assert (0, 1) in Grid(4, 5) && (0, 2) in Grid(4, 5) && (0, 3) in Grid(4, 5);
    assert (1, 1) in Grid(4, 5) && (1, 2) in Grid(4, 5) && (1, 3) in Grid(4, 5);
    ClippedCountUnrolled(s2, 4, 5, 0, 2);
    assert ClippedCount(s2, 4, 5, 0, 2) == 0;
    TopRowTripleCleared();
  }

  lemma TopRowTripleCleared()
    ensures AllDead(TopRowTriple()[(0, 0) := Dead][(0, 1) := Dead][(0, 2) := Dead])
  {
  }

  /**
   * The in-place sweep kills the whole triple (0, 0), (0, 1), (0, 2) and
   * leaves no Alive cell on the grid.
   */
  lemma TopRowTripleSweptAway()
    ensures AllDead(SweepTo(TopRowTriple(), 4, 5, 4, 0))
  {
    TopRowTripleThirdStep();
    SweepStaysDead(TopRowTriple(), 4, 5, 0, 3, 4, 0);
  }

  /**
   * From the same grid, rule applied to a snapshot of the counts (the current
   * engine's order) keeps (0, 1) alive and brings (1, 1) to life, so at both
   * cells the in-place sweep and the snapshot rule disagree.
   */
  lemma TopRowTripleSnapshot()
    ensures NextState(TopRowTriple()[(0, 1)], ClippedCount(TopRowTriple(), 4, 5, 0, 1)) == Alive
    ensures NextState(TopRowTriple()[(1, 1)], ClippedCount(TopRowTriple(), 4, 5, 1, 1)) == Alive
    ensures SweepTo(TopRowTriple(), 4, 5, 4, 0)[(0, 1)] != NextState(TopRowTriple()[(0, 1)], ClippedCount(TopRowTriple(), 4, 5, 0, 1))
    ensures SweepTo(TopRowTriple(), 4, 5, 4, 0)[(1, 1)] != NextState(TopRowTriple()[(1, 1)], ClippedCount(TopRowTriple(), 4, 5, 1, 1))
  {
    TopRowTripleMiddleCount();
    TopRowTripleBelowCount();
    TopRowTripleSweptAway();
    assert (0, 1) in Grid(4, 5) && (1, 1) in Grid(4, 5);
  }

  /** The middle cell (0, 1) of the unchanged grid has two Alive neighbours. */
  lemma TopRowTripleMiddleCount()
    ensures ClippedCount(TopRowTriple(), 4, 5, 0, 1) == 2
  {
    assert (0, 0) in Grid(4, 5) && (0, 1) in Grid(4, 5) && (0, 2) in Grid(4, 5);
    assert (1, 0) in Grid(4, 5) && (1, 1) in Grid(4, 5) && (1, 2) in Grid(4, 5);
    ClippedCountUnrolled(TopRowTriple(), 4, 5, 0, 1);
  }

  /** The cell (1, 1) below it has three. */
  lemma TopRowTripleBelowCount()
    ensures ClippedCount(TopRowTriple(), 4, 5, 1, 1) == 3
  {
    assert (0, 0) in Grid(4, 5) && (0, 1) in Grid(4, 5) && (0, 2) in Grid(4, 5);
    assert (1, 0) in Grid(4, 5) && (1, 1) in Grid(4, 5) && (1, 2) in Grid(4, 5);
    assert (2, 0) in Grid(4, 5) && (2, 1) in Grid(4, 5) && (2, 2) in Grid(4, 5);
    ClippedCountUnrolled(TopRowTriple(), 4, 5, 1, 1);
  }

  class GameLife {
    const numberOfRows: int
    const numberOfCols: int
    const gameField: seq<seq<GameLifeCell>>
    /** _previous_field: assigned the very list _game_field is, and never reassigned. */
    const previousField: seq<seq<GameLifeCell>>
    var generation: nat

    /**
     * The shape __init__ builds: Extent(rows) rows of Extent(cols) cells, the
     * cell at [r][c] carrying row r and column c, and the previous field the
     * same list as the game field.
     */
    ghost predicate Valid()
    {
      && |gameField| == Extent(numberOfRows)
      && (forall r :: 0 <= r < |gameField| ==> |gameField[r]| == Extent(numberOfCols))
      && (forall r, c :: 0 <= r < |gameField| && 0 <= c < |gameField[r]| ==>
            gameField[r][c].row == r && gameField[r][c].col == c)
      && previousField == gameField
    }

    ghost function CellObjects(): set<GameLifeCell>
    {
      set r, c | 0 <= r < |gameField| && 0 <= c < |gameField[r]| :: gameField[r][c]
    }

    /** rows: the number of row lists. */
    function Rows(): (n: nat)
      requires Valid()
      ensures n == Extent(numberOfRows)
    {
      |gameField|
    }

    /** cols: the length of the first row, or 0 when there is no row at all. */
    function Cols(): (n: nat)
      requires Valid()
      ensures n == (if numberOfRows > 0 then Extent(numberOfCols) else 0)
    {
      if |gameField| == 0 then 0 else |gameField[0]|
    }

    /** The state of every cell, by coordinate. */
    ghost function States(): (m: map<(int, int), CellState>)
      requires Valid()
      reads CellObjects()
      ensures m.Keys == Grid(Rows(), Cols())
      ensures forall k :: k in m ==> m[k] == gameField[k.0][k.1].state
    {
      map k | k in Grid(Rows(), Cols()) :: gameField[k.0][k.1].state
    }

    lemma StatesAre(m: map<(int, int), CellState>)
      requires Valid()
      requires m.Keys == Grid(Rows(), Cols())
      requires forall k :: k in m ==> gameField[k.0][k.1].state == m[k]
      ensures States() == m
    {
    }

    /** Distinct coordinates hold distinct cells, since each cell carries its own coordinates. */
    lemma CellsDistinct(r: int, c: int)
      requires Valid() && 0 <= r < Rows() && 0 <= c < Cols()
      ensures forall k :: k in Grid(Rows(), Cols()) && k != (r, c) ==> gameField[k.0][k.1] != gameField[r][c]
    {
    }

    /** field: new outer lists holding the very cells of the game field. */
    function FieldView(): (f: seq<seq<GameLifeCell>>)
      requires Valid()
      ensures f == gameField
    {
      var f := seq(Extent(numberOfRows), r requires 0 <= r < |gameField| =>
                 seq(Extent(numberOfCols), c requires 0 <= c < |gameField[r]| => gameField[r][c]));
      assert forall r :: 0 <= r < |f| ==> f[r] == gameField[r];
      f
    }

    /** previous_field: the same cells again, since the previous field is the game field. */
    function PreviousFieldView(): (f: seq<seq<GameLifeCell>>)
      requires Valid()
      ensures f == gameField
    {
      var f := seq(Extent(numberOfRows), r requires 0 <= r < |previousField| =>
                 seq(Extent(numberOfCols), c requires 0 <= c < |previousField[r]| => previousField[r][c]));
      assert forall r :: 0 <= r < |f| ==> f[r] == previousField[r];
      f
    }

    /**
     * is_the_final_generation: meant to detect a field that no longer changes,
     * it holds as soon as one generation has been made, because the previous
     * field is the game field itself.
     */
    function IsTheFinalGeneration(): (b: bool)
      requires Valid()
      reads this
      ensures b <==> generation > 0
    {
      generation > 0 && previousField == gameField
    }

    /** GameLife(number_of_rows, number_of_cells): any sizes; a size of 0 or less yields no rows or no columns. */
    constructor(numberOfRows: int, numberOfCells: int)
      ensures Valid()
      ensures this.numberOfRows == numberOfRows && this.numberOfCols == numberOfCells
      ensures generation == 0
      ensures forall r, c :: 0 <= r < |gameField| && 0 <= c < |gameField[r]| ==> fresh(gameField[r][c])
      ensures forall k :: k in States() ==> States()[k] == Dead
    {
      this.numberOfRows := numberOfRows;
      this.numberOfCols := numberOfCells;
      var field: seq<seq<GameLifeCell>> := [];
      for r := 0 to Extent(numberOfRows)
        invariant |field| == r
        invariant forall i :: 0 <= i < r ==> |field[i]| == Extent(numberOfCells)
        invariant forall i, j :: 0 <= i < r && 0 <= j < |field[i]| ==>
                    field[i][j].row == i && field[i][j].col == j && field[i][j].state == Dead && fresh(field[i][j])
      {
        var row := NewRow(r, Extent(numberOfCells));
        field := field + [row];
      }
      gameField := field;
      previousField := field;
      generation := 0;
    }

    /** One row of _init_game_field: a new Dead cell for every column. */
    static method NewRow(r: int, columns: nat) returns (row: seq<GameLifeCell>)
      ensures |row| == columns
      ensures forall c :: 0 <= c < columns ==>
                row[c].row == r && row[c].col == c && row[c].state == Dead && fresh(row[c])
    {
      row := [];
      for c := 0 to columns
        invariant |row| == c
        invariant forall j :: 0 <= j < c ==> row[j].row == r && row[j].col == j && row[j].state == Dead && fresh(row[j])
      {
        var cell := new GameLifeCell(r, c, Dead);
        row := row + [cell];
      }
    }

    /** One row of _change_cell_state: the listed cells of row r take cellState. */
    method ChangeRow(r: int, coordinates: seq<(int, int)>, cellState: CellState)
      requires Valid() && 0 <= r < Rows()
      modifies CellObjects()
      ensures forall k :: k in Grid(Rows(), Cols()) ==>
                gameField[k.0][k.1].state == (if k.0 == r && k in coordinates then cellState
                                              else old(gameField[k.0][k.1].state))
    {
      for c := 0 to Cols()
        invariant forall k :: k in Grid(Rows(), Cols()) ==>
                    gameField[k.0][k.1].state == (if k.0 == r && k.1 < c && k in coordinates then cellState
                                                  else old(gameField[k.0][k.1].state))
      {
        if (r, c) in coordinates {
          CellsDistinct(r, c);
          gameField[r][c].ChangeState(cellState);
        }
      }
    }

    /**
     * _change_cell_state: every cell whose coordinate is listed takes
     * cellState; listed coordinates outside the grid are ignored.
     */
    method ChangeCellState(coordinates: seq<(int, int)>, cellState: CellState)
      requires Valid()
      modifies CellObjects()
      ensures States() == Changed(old(States()), coordinates, cellState)
    {
      ghost var s := States();
      for r := 0 to Rows()
        invariant forall k :: k in Grid(Rows(), Cols()) ==>
                    gameField[k.0][k.1].state == (if k.0 < r && k in coordinates then cellState else s[k])
      {
        ChangeRow(r, coordinates, cellState);
      }
      StatesAre(Changed(s, coordinates, cellState));
    }

    /** set_alive_cells: the listed cells become Alive. */
    method SetAliveCells(stateField: seq<(int, int)>)
      requires Valid()
      modifies CellObjects()
      ensures States() == Changed(old(States()), stateField, Alive)
    {
      ChangeCellState(stateField, Alive);
    }

    /** set_dead_cells: the listed cells become Dead. */
    method SetDeadCells(stateField: seq<(int, int)>)
      requires Valid()
      modifies CellObjects()
      ensures States() == Changed(old(States()), stateField, Dead)
    {
      ChangeCellState(stateField, Dead);
    }

    /**
     * _count_amount_alive_neighbour: the Alive cells among the eight
     * neighbours of (cellRow, cellCol) that lie inside the grid.
     */
    method CountAmountAliveNeighbour(cellRow: int, cellCol: int) returns (numberOfAlive: int)
      requires Valid()
      ensures numberOfAlive == ClippedCount(States(), Rows(), Cols(), cellRow, cellCol)
      ensures 0 <= numberOfAlive <= 8
    {
      ghost var s := States();
      numberOfAlive := 0;
      for i := 0 to 8
        invariant s == States()
        invariant numberOfAlive == ClippedAmong(s, Rows(), Cols(), cellRow, cellCol, Offsets[..i])
      {
        var rowToCheck := cellRow + Offsets[i].0;
        var colToCheck := cellCol + Offsets[i].1;
        var isAlive := IsAliveNeighbour(rowToCheck, colToCheck, s);
        ghost var prior := numberOfAlive;
        if isAlive {
          numberOfAlive := numberOfAlive + 1;
        }
        CountStep(s, Rows(), Cols(), cellRow, cellCol, i, prior, isAlive);
      }
      assert Offsets[..8] == Offsets;
    }

    /** The test in the loop of _count_amount_alive_neighbour: inside range(rows) x range(cols) and Alive. */
    method IsAliveNeighbour(rowToCheck: int, colToCheck: int, ghost s: map<(int, int), CellState>)
      returns (isAlive: bool)
      requires Valid() && s == States()
      ensures isAlive == InFieldAlive(s, Rows(), Cols(), rowToCheck, colToCheck)
    {
      isAlive := false;
      if 0 <= rowToCheck < Rows() && 0 <= colToCheck < Cols() {
        assert (rowToCheck, colToCheck) in Grid(Rows(), Cols());
        var cell: GameLifeCell := FieldView()[rowToCheck][colToCheck];
        isAlive := cell.state == Alive;
      }
    }

    /** _apply_rules_to_alive_cell: 0-1 dies, 2-3 lives, more than 3 dies, whatever the cell's state was. */
    method ApplyRulesToAliveCell(currentCell: GameLifeCell, numberOfAliveNeighbours: int)
      modifies currentCell
      ensures currentCell.state == (if 2 <= numberOfAliveNeighbours <= 3 then Alive else Dead)
    {
      if numberOfAliveNeighbours < 2 {
        currentCell.MakeDead();
      } else if numberOfAliveNeighbours > 1 && numberOfAliveNeighbours < 4 {
        currentCell.MakeAlive();
      } else if numberOfAliveNeighbours > 3 {
        currentCell.MakeDead();
      }
    }

    /** _apply_rules_to_dead_cell: exactly 3 makes the cell Alive; any other count leaves it as it was. */
    method ApplyRulesToDeadCell(currentCell: GameLifeCell, numberOfAliveNeighbours: int)
      modifies currentCell
      ensures currentCell.state == (if numberOfAliveNeighbours == 3 then Alive else old(currentCell.state))
    {
      if numberOfAliveNeighbours == 3 {
        currentCell.MakeAlive();
      }
    }

    /** _apply_rules_and_change_state: dispatches on the cell's state. */
    method ApplyRulesAndChangeState(currentCell: GameLifeCell, numberOfAliveNeighbours: int)
      modifies currentCell
      ensures currentCell.state == LegacyRule(old(currentCell.state), numberOfAliveNeighbours)
    {
      if currentCell.state == Alive {
        ApplyRulesToAliveCell(currentCell, numberOfAliveNeighbours);
      } else if currentCell.state == Dead {
        ApplyRulesToDeadCell(currentCell, numberOfAliveNeighbours);
      }
    }

    /** The body of the inner loop of create_new_generation, for the cell at (r, c). */
    method SweepCell(r: int, c: int)
      requires Valid() && 0 <= r < Rows() && 0 <= c < Cols()
      modifies CellObjects()
      ensures States() == Step(old(States()), Rows(), Cols(), (r, c))
    {
      var cell := FieldView()[r][c];
      var aliveNeighbours := CountAmountAliveNeighbour(cell.row, cell.col);
      ghost var before := States();
      assert (r, c) in before;
      ApplyRulesAndChangeState(cell, aliveNeighbours);
      CellsDistinct(r, c);
      StatesAre(before[(r, c) := cell.state]);
    }

    /** The inner loop of create_new_generation: the cells of row r, in column order. */
    method SweepRow(r: nat, ghost s: map<(int, int), CellState>)
      requires Valid() && r < Rows()
      requires States() == SweepTo(s, Rows(), Cols(), r, 0)
      modifies CellObjects()
      ensures States() == SweepTo(s, Rows(), Cols(), r, Cols())
    {
      for c := 0 to Cols()
        invariant States() == SweepTo(s, Rows(), Cols(), r, c)
      {
        SweepCell(r, c);
      }
    }

    /**
     * create_new_generation: sweeps the cells in row-major order, each one
     * counted against the grid as already changed by the sweep, then adds one
     * to the generation.
     */
    method CreateNewGeneration()
      requires Valid()
      modifies this, CellObjects()
      ensures generation == old(generation) + 1
      ensures States() == SweepTo(old(States()), Rows(), Cols(), Rows(), 0)
    {
      ghost var s := States();
      for r := 0 to Rows()
        invariant States() == SweepTo(s, Rows(), Cols(), r, 0)
        modifies CellObjects()
      {
        SweepRow(r, s);
      }
      ghost var swept := States();
      generation := generation + 1;
      assert States() == swept;
    }
  }
}
