/** The game field of the current engine (class Field). */
module Fields {
  import opened CellStates
  import opened Exceptions
  import opened Cells

  /** The coordinates a rows x columns field has keys for. */
  ghost function Grid(rows: int, columns: int): set<(int, int)>
  {
    set r, c | 0 <= r < rows && 0 <= c < columns :: (r, c)
  }

  /** The coordinates of one row. */
  ghost function RowKeys(r: int, columns: int): set<(int, int)>
  {
    set c | 0 <= c < columns :: (r, c)
  }

  lemma {:induction false} RowKeysSize(r: int, columns: nat)
    ensures |RowKeys(r, columns)| == columns
  {
    if columns > 0 {
      RowKeysSize(r, columns - 1);
      assert (r, columns - 1) !in RowKeys(r, columns - 1);
      assert RowKeys(r, columns) == RowKeys(r, columns - 1) + {(r, columns - 1)};
    } else {
      assert RowKeys(r, columns) == {};
    }
  }

  /** The grid of rows rows is the grid of the first rows - 1 rows plus the last row, disjointly. */
  lemma GridSplit(rows: nat, columns: nat)
    requires rows > 0
    ensures Grid(rows, columns) == Grid(rows - 1, columns) + RowKeys(rows - 1, columns)
    ensures Grid(rows - 1, columns) !! RowKeys(rows - 1, columns)
  {
  }

  lemma RowsTimesColumns(rows: nat, columns: nat)
    requires rows > 0
    ensures (rows - 1) * columns + columns == rows * columns
  {
  }

  /** A field has exactly rows * columns cells. */
  lemma {:induction false} GridSize(rows: nat, columns: nat)
    ensures |Grid(rows, columns)| == rows * columns
  {
    if rows > 0 {
      GridSize(rows - 1, columns);
      RowKeysSize(rows - 1, columns);
      GridSplit(rows, columns);
      RowsTimesColumns(rows, columns);
    } else {
      assert Grid(rows, columns) == {};
    }
  }

  /** The size check done for each dimension; None is Python's None. */
  function ValidateFieldSize(value: Option<int>): (o: Outcome)
    ensures o.Pass? <==> value.Some? && value.value >= 10
    ensures o.Fail? ==> o.error == GameFieldSize
  {
    if value.None? || value.value < 10 then Fail(GameFieldSize) else Pass
  }

  class Field {
    const rows: int
    const columns: int
    const cells: map<(int, int), Cell>

    /**
     * The shape every field has once constructed: at least 10 x 10, one key
     * per coordinate, the cell under key (r, c) at row r and column c. It reads
     * only constants, so nothing can break it after construction.
     */
    ghost predicate WellFormed()
    {
      && rows >= 10 && columns >= 10
      && (forall r, c :: (r, c) in cells <==> 0 <= r < rows && 0 <= c < columns)
      && (forall k :: k in cells ==> 0 <= k.0 < rows && 0 <= k.1 < columns)
      && (forall k :: k in cells ==> cells[k].row == k.0 && cells[k].column == k.1)
    }

    /** Distinct coordinates hold distinct cells, since each cell carries its own coordinates. */
    lemma CellsDistinct(key: (int, int))
      requires WellFormed() && key in cells
      ensures forall k :: k in cells && k != key ==> cells[k] != cells[key]
    {
    }

    /** The keys of a well-formed field are exactly the coordinates of its grid. */
    lemma KeysAreGrid()
      requires WellFormed()
      ensures cells.Keys == Grid(rows, columns)
    {
      forall k | k in Grid(rows, columns)
        ensures k in cells
      {
        assert (k.0, k.1) in cells;
      }
    }

    /** The state of every cell, by coordinate. */
    function States(): (s: map<(int, int), CellState>)
      reads cells.Values
      ensures s.Keys == cells.Keys
      ensures forall k :: k in cells ==> s[k] == cells[k].state
    {
      map k | k in cells :: cells[k].state
    }

    /** The cached neighbour count of every cell, by coordinate. */
    function Counts(): (n: map<(int, int), NeighbourNumber>)
      reads cells.Values
      ensures n.Keys == cells.Keys
      ensures forall k :: k in cells ==> n[k] == cells[k].neighbours
    {
      map k | k in cells :: cells[k].neighbours
    }

    /** The states are m when they agree with m cell by cell. */
    lemma StatesAre(m: map<(int, int), CellState>)
      requires m.Keys == cells.Keys
      requires forall k :: k in cells ==> cells[k].state == m[k]
      ensures States() == m
    {
    }

    /** The cached counts are m when they agree with m cell by cell. */
    lemma CountsAre(m: map<(int, int), NeighbourNumber>)
      requires m.Keys == cells.Keys
      requires forall k :: k in cells ==> cells[k].neighbours == m[k]
      ensures Counts() == m
    {
    }

    /** The constructor once both dimensions have passed validation (_init_cells). */
    constructor Init(rows: int, columns: int)
      requires rows >= 10 && columns >= 10
      ensures this.rows == rows && this.columns == columns
      ensures WellFormed()
      ensures forall k :: k in cells ==> fresh(cells[k])
      ensures forall k :: k in cells ==> cells[k].state == Dead && cells[k].neighbours == 0
    {
      this.rows := rows;
      this.columns := columns;
      var m: map<(int, int), Cell> := map[];
      for r := 0 to rows
        invariant m.Keys == Grid(r, columns)
        invariant forall k :: k in m ==> m[k].row == k.0 && m[k].column == k.1
        invariant forall k :: k in m ==> fresh(m[k]) && m[k].state == Dead && m[k].neighbours == 0
      {
        m := AddRow(m, r, columns);
        assert Grid(r, columns) + RowKeys(r, columns) == Grid(r + 1, columns);
      }
      cells := m;
    }

    /** One row of _init_cells: adds a fresh dead cell at (r, c) for every column c. */
    static method AddRow(m: map<(int, int), Cell>, r: nat, columns: nat) returns (m': map<(int, int), Cell>)
      ensures m'.Keys == m.Keys + RowKeys(r, columns)
      ensures forall k :: k in m' && k !in m ==> m'[k].row == k.0 && m'[k].column == k.1
      ensures forall k :: k in m' && k !in m ==> fresh(m'[k]) && m'[k].state == Dead && m'[k].neighbours == 0
      ensures forall k :: k in m && k !in RowKeys(r, columns) ==> m'[k] == m[k]
    {
      m' := m;
      for c := 0 to columns
        invariant m'.Keys == m.Keys + set c' | 0 <= c' < c :: (r, c')
        invariant forall k :: k in m' && k !in m ==> m'[k].row == k.0 && m'[k].column == k.1
        invariant forall k :: k in m' && k !in m ==> fresh(m'[k]) && m'[k].state == Dead && m'[k].neighbours == 0
        invariant forall k :: k in m && k !in RowKeys(r, columns) ==> m'[k] == m[k]
      {
        var cell := new Cell(r, c, Dead);
        m' := m'[(r, c) := cell];
      }
    }

    /** Field(rows, columns): rejects an absent or too small dimension before allocating any cell. */
    static method Create(rows: Option<int>, columns: Option<int>) returns (r: Result<Field>)
      ensures r.Failure? <==> rows.None? || rows.value < 10 || columns.None? || columns.value < 10
      ensures r.Failure? ==> r.error == GameFieldSize
      ensures r.Success? ==> fresh(r.value) && r.value.WellFormed()
      ensures r.Success? ==> r.value.rows == rows.value && r.value.columns == columns.value
      ensures r.Success? ==> |r.value.cells| == rows.value * columns.value
      ensures r.Success? ==> forall k :: k in r.value.cells ==> fresh(r.value.cells[k])
      ensures r.Success? ==> forall k :: k in r.value.cells ==>
                r.value.cells[k].state == Dead && r.value.cells[k].neighbours == 0
    {
      var v := ValidateFieldSize(rows);
      if v.Fail? {
        return Failure(v.error);
      }
      v := ValidateFieldSize(columns);
      if v.Fail? {
        return Failure(v.error);
      }
      var f := new Field.Init(rows.value, columns.value);
      GridSize(rows.value, columns.value);
      f.KeysAreGrid();
      assert |f.cells| == |f.cells.Keys|;
      r := Success(f);
    }
  }

  /** Field() with its default arguments: a 10 x 10 field of 100 dead cells. */
  method CreateDefault() returns (f: Field)
    ensures fresh(f) && f.WellFormed()
    ensures f.rows == 10 && f.columns == 10 && |f.cells| == 100
    ensures forall k :: k in f.cells ==> f.cells[k].state == Dead && f.cells[k].neighbours == 0
  {
    var r := Field.Create(Some(10), Some(10));
    f := r.value;
  }
}
