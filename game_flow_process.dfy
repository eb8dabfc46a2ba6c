/** The simulation driver of the current engine (class GameFlowProcess). */
module GameFlow {
  import opened CellStates
  import opened Exceptions
  import opened Cells
  import opened Fields
  import opened Rules
  import opened Neighbours

  /** The states after randomize_next_generation's pass: each cell whose coin is true is flipped. */
  function Randomized(states: map<(int, int), CellState>, coin: ((int, int)) -> bool): (m: map<(int, int), CellState>)
    ensures m.Keys == states.Keys
    ensures forall k :: k in m ==> m[k] == (if coin(k) then Toggle(states[k]) else states[k])
  {
    map k | k in states :: if coin(k) then Toggle(states[k]) else states[k]
  }

  /** The same coins flip the same cells back: a second pass restores the states. */
  lemma {:induction false} RandomizedTwiceRestores(states: map<(int, int), CellState>, coin: ((int, int)) -> bool)
    ensures Randomized(Randomized(states, coin), coin) == states
  {
    forall k | k in states
      ensures Randomized(Randomized(states, coin), coin)[k] == states[k]
    {
      ToggleInvolutive(states[k]);
    }
  }

  /** On a 10 x 10 field the recount is the clipped count, written out over the eight neighbours. */
  lemma DefaultFieldCount(states: map<(int, int), CellState>, r: int, c: int)
    requires states.Keys == Grid(10, 10)
    ensures NeighbourCount(states, 10, 10, r, c)
            == Indicator(InFieldAlive(states, 10, 10, r - 1, c - 1))
               + Indicator(InFieldAlive(states, 10, 10, r - 1, c))
               + Indicator(InFieldAlive(states, 10, 10, r - 1, c + 1))
               + Indicator(InFieldAlive(states, 10, 10, r, c - 1))
               + Indicator(InFieldAlive(states, 10, 10, r, c + 1))
               + Indicator(InFieldAlive(states, 10, 10, r + 1, c - 1))
               + Indicator(InFieldAlive(states, 10, 10, r + 1, c))
               + Indicator(InFieldAlive(states, 10, 10, r + 1, c + 1))
  {
    CountIsClippedOnNarrowFields(states, 10, 10, r, c);
    ClippedCountUnrolled(states, 10, 10, r, c);
  }

  /** The default field after switching (0, 0), (0, 1) and (0, 2) on. */
  ghost function DefaultFieldTriple(): (m: map<(int, int), CellState>)
    ensures m.Keys == Grid(10, 10)
  {
    assert (0, 0) in Grid(10, 10) && (0, 1) in Grid(10, 10) && (0, 2) in Grid(10, 10);
    Uniform(10, 10, Dead)[(0, 0) := Alive][(0, 1) := Alive][(0, 2) := Alive]
  }

  /** The recounts at (0, 0), (0, 1) and (0, 2) of the triple. */
  lemma DefaultFieldTripleCounts()
    ensures NeighbourCount(DefaultFieldTriple(), 10, 10, 0, 0) == 1
    ensures NeighbourCount(DefaultFieldTriple(), 10, 10, 0, 1) == 2
    ensures NeighbourCount(DefaultFieldTriple(), 10, 10, 0, 2) == 1
  {
    var s := DefaultFieldTriple();
    assert (0, 3) in Grid(10, 10) && (1, 0) in Grid(10, 10) && (1, 1) in Grid(10, 10);
    assert (1, 2) in Grid(10, 10) && (1, 3) in Grid(10, 10);
    DefaultFieldCount(s, 0, 0);
    DefaultFieldCount(s, 0, 1);
    DefaultFieldCount(s, 0, 2);
  }

  /**
   * The generation step from the recounted triple: both ends die with one
   * neighbour each, the middle survives with two.
   */
  lemma DefaultFieldTripleStep()
    ensures NextGeneration(DefaultFieldTriple(), NeighbourCounts(DefaultFieldTriple(), 10, 10))[(0, 0)] == Dead
    ensures NextGeneration(DefaultFieldTriple(), NeighbourCounts(DefaultFieldTriple(), 10, 10))[(0, 1)] == Alive
    ensures NextGeneration(DefaultFieldTriple(), NeighbourCounts(DefaultFieldTriple(), 10, 10))[(0, 2)] == Dead
  {
    DefaultFieldTripleCounts();
  }

  /** The default field after switching (0, 0), (0, 1), (0, 2), (1, 0), (1, 1) and (2, 1) on. */
  ghost function DefaultFieldCluster(): (m: map<(int, int), CellState>)
    ensures m.Keys == Grid(10, 10)
  {
    assert (0, 0) in Grid(10, 10) && (0, 1) in Grid(10, 10) && (0, 2) in Grid(10, 10);
    assert (1, 0) in Grid(10, 10) && (1, 1) in Grid(10, 10) && (2, 1) in Grid(10, 10);
    Uniform(10, 10, Dead)[(0, 0) := Alive][(0, 1) := Alive][(0, 2) := Alive]
                         [(1, 0) := Alive][(1, 1) := Alive][(2, 1) := Alive]
  }

  /** The coordinates around the cluster are cells of the 10 x 10 grid. */
  lemma ClusterNeighbourhood()
    ensures forall r, c :: 0 <= r < 4 && 0 <= c < 4 ==> (r, c) in Grid(10, 10)
  {
  }

  /** The recounts of the top-left cluster cells (0, 0), (0, 1), (0, 2) and (1, 0). */
  lemma DefaultFieldClusterTopCounts()
    ensures NeighbourCount(DefaultFieldCluster(), 10, 10, 0, 0) == 3
    ensures NeighbourCount(DefaultFieldCluster(), 10, 10, 0, 1) == 4
    ensures NeighbourCount(DefaultFieldCluster(), 10, 10, 0, 2) == 2
    ensures NeighbourCount(DefaultFieldCluster(), 10, 10, 1, 0) == 4
  {
    var s := DefaultFieldCluster();
    ClusterNeighbourhood();
    DefaultFieldCount(s, 0, 0);
    DefaultFieldCount(s, 0, 1);
    DefaultFieldCount(s, 0, 2);
    DefaultFieldCount(s, 1, 0);
  }

  /** The recounts at (1, 1), (2, 1) and (2, 0). */
  lemma DefaultFieldClusterLowerCounts()
    ensures NeighbourCount(DefaultFieldCluster(), 10, 10, 1, 1) == 5
    ensures NeighbourCount(DefaultFieldCluster(), 10, 10, 2, 1) == 2
    ensures NeighbourCount(DefaultFieldCluster(), 10, 10, 2, 0) == 3
  {
    var s := DefaultFieldCluster();
    ClusterNeighbourhood();
    DefaultFieldCount(s, 1, 1);
    DefaultFieldCount(s, 2, 1);
    DefaultFieldCount(s, 2, 0);
  }

  /** The states of the cells the cluster scenario inspects. */
  lemma DefaultFieldClusterStates()
    ensures DefaultFieldCluster()[(0, 0)] == Alive
    ensures DefaultFieldCluster()[(0, 1)] == Alive
    ensures DefaultFieldCluster()[(0, 2)] == Alive
    ensures DefaultFieldCluster()[(1, 0)] == Alive
    ensures DefaultFieldCluster()[(1, 1)] == Alive
    ensures DefaultFieldCluster()[(2, 1)] == Alive
    ensures DefaultFieldCluster()[(2, 0)] == Dead
  {
    ClusterNeighbourhood();
  }

  /**
   * The generation step from the recounted cluster, top-left cells: (0, 0) and
   * (0, 2) survive, (0, 1) and (1, 0) die of overcrowding.
   */
  lemma DefaultFieldClusterTopStep()
    ensures NextGeneration(DefaultFieldCluster(), NeighbourCounts(DefaultFieldCluster(), 10, 10))[(0, 0)] == Alive
    ensures NextGeneration(DefaultFieldCluster(), NeighbourCounts(DefaultFieldCluster(), 10, 10))[(0, 1)] == Dead
    ensures NextGeneration(DefaultFieldCluster(), NeighbourCounts(DefaultFieldCluster(), 10, 10))[(0, 2)] == Alive
    ensures NextGeneration(DefaultFieldCluster(), NeighbourCounts(DefaultFieldCluster(), 10, 10))[(1, 0)] == Dead
  {
    DefaultFieldClusterStates();
    DefaultFieldClusterTopCounts();
  }

  /** The generation step from the recounted cluster, lower cells: (1, 1) dies, (2, 1) survives, (2, 0) is born. */
  lemma DefaultFieldClusterLowerStep()
    ensures NextGeneration(DefaultFieldCluster(), NeighbourCounts(DefaultFieldCluster(), 10, 10))[(1, 1)] == Dead
    ensures NextGeneration(DefaultFieldCluster(), NeighbourCounts(DefaultFieldCluster(), 10, 10))[(2, 1)] == Alive
    ensures NextGeneration(DefaultFieldCluster(), NeighbourCounts(DefaultFieldCluster(), 10, 10))[(2, 0)] == Alive
  {
    DefaultFieldClusterStates();
    DefaultFieldClusterLowerCounts();
  }

  /**
   * The on_generation_created callable. What it does is outside the engine; it
   * is modelled by the number of times it has been invoked.
   */
  class Callback {
    ghost var invocations: nat

    constructor ()
      ensures invocations == 0
    {
      invocations := 0;
    }

    method Invoke()
      modifies this
      ensures invocations == old(invocations) + 1
    {
      invocations := invocations + 1;
    }
  }

  class GameFlowProcess {
    const field: Field
    var generation: nat
    const onGenerationCreated: Callback

    ghost predicate Valid()
    {
      && field.WellFormed()
      && (forall k :: k in field.cells ==> field.cells[k] as object != onGenerationCreated)
      && (forall k :: k in field.cells ==> field.cells[k] as object != this)
    }

    /** The constructor once the generation has passed validation and the field exists. */
    constructor Init(field: Field, generation: nat, onGenerationCreated: Callback)
      requires field.WellFormed()
      ensures Valid()
      ensures this.field == field && this.generation == generation
      ensures this.onGenerationCreated == onGenerationCreated
    {
      this.field := field;
      this.generation := generation;
      this.onGenerationCreated := onGenerationCreated;
    }

    /**
     * GameFlowProcess(rows, columns, generation, game_field): rejects a negative
     * generation before anything else; without a field it builds Field(rows, columns),
     * whose own size check may fail; with one it keeps that very field.
     */
    static method Create(rows: int, columns: int, generation: int, gameField: Field?, onGenerationCreated: Callback)
      returns (r: Result<GameFlowProcess>)
      requires gameField != null ==> gameField.WellFormed()
      ensures generation < 0 ==> r == Failure(GenerationValue)
      ensures generation >= 0 && gameField == null && (rows < 10 || columns < 10) ==> r == Failure(GameFieldSize)
      ensures r.Success? <==> generation >= 0 && (gameField != null || (rows >= 10 && columns >= 10))
      ensures r.Success? ==> fresh(r.value) && r.value.Valid()
      ensures r.Success? ==> r.value.generation == generation && r.value.onGenerationCreated == onGenerationCreated
      ensures r.Success? && gameField != null ==> r.value.field == gameField
      ensures r.Success? && gameField == null ==>
                && fresh(r.value.field)
                && r.value.field.rows == rows && r.value.field.columns == columns
                && (forall k :: k in r.value.field.cells ==> fresh(r.value.field.cells[k]))
                && (forall k :: k in r.value.field.cells ==>
                      r.value.field.cells[k].state == Dead && r.value.field.cells[k].neighbours == 0)
    {
      if generation < 0 {
        return Failure(GenerationValue);
      }
      var f: Field;
      if gameField == null {
        var rf := Field.Create(Some(rows), Some(columns));
        if rf.Failure? {
          return Failure(rf.error);
        }
        f := rf.value;
      } else {
        f := gameField;
      }
      var flow := new GameFlowProcess.Init(f, generation, onGenerationCreated);
      r := Success(flow);
    }

    /**
     * switch_cell_state: flips the one cell at (row, column); a coordinate that
     * is not a key is a lookup error and changes nothing. No count is recomputed.
     */
    method SwitchCellState(row: int, column: int) returns (o: Outcome)
      requires Valid()
      modifies field.cells.Values
      ensures o.Fail? <==> (row, column) !in field.cells
      ensures o.Fail? ==> o.error == CellLookup
      ensures forall k :: k in field.cells ==>
                field.cells[k].state == (if k == (row, column) then Toggle(old(field.cells[k].state))
                                         else old(field.cells[k].state))
      ensures forall k :: k in field.cells ==> field.cells[k].neighbours == old(field.cells[k].neighbours)
    {
      if (row, column) !in field.cells {
        return Fail(CellLookup);
      }
      var currentCell := field.cells[(row, column)];
      if currentCell.state == Alive {
        currentCell.SetState(Dead);
      } else {
        currentCell.SetState(Alive);
      }
      o := Pass;
    }

    /**
     * _count_neighbours_for_cell: visits the eight offsets, applies the code's
     * bounds tests, skips positions that are not keys, and stores the count.
     */
    method CountNeighboursForCell(cell: Cell)
      requires Valid() && cell in field.cells.Values
      modifies cell
      ensures forall k :: k in field.cells ==> field.cells[k].state == old(field.cells[k].state)
      ensures cell.neighbours == NeighbourCount(old(field.States()), field.rows, field.columns, cell.row, cell.column)
    {
      ghost var s := field.States();
      var row := cell.row;
      var col := cell.column;
      var count := 0;
      for i := 0 to 8
        invariant count == AliveAmong(s, field.rows, field.columns, row, col, Offsets[..i])
        modifies {}
      {
        var (rowDiff, colDiff) := Offsets[i];
        var toVisitRow := row + rowDiff;
        var toVisitCol := col + colDiff;
        ghost var counted := Counted(s, field.rows, field.columns, toVisitRow, toVisitCol);
        ghost var prior := count;
        var isNotValidRow := toVisitRow < 0 || toVisitCol > field.rows;
        var isNotValidCol := toVisitCol < 0 || toVisitCol > field.columns;
        if !(isNotValidRow || isNotValidCol) {
          if (toVisitRow, toVisitCol) in field.cells {
            var neighbourCell := field.cells[(toVisitRow, toVisitCol)];
            if neighbourCell.state == Alive {
              count := count + 1;
            }
          }
        }
        assert count == prior + (if counted then 1 else 0);
        AliveAmongPrefix(s, field.rows, field.columns, row, col, Offsets, i + 1);
      }
      assert Offsets[..8] == Offsets;
      var o := cell.SetNeighbours(Some(count));
      assert o.Pass?;
    }

    /**
     * One row of _count_neighbours_for_field: recounts the cells of row r, in
     * column order, from the states as they stand.
     */
    method CountNeighboursForRow(r: int, ghost s: map<(int, int), CellState>)
      requires Valid() && 0 <= r < field.rows
      requires s.Keys == field.cells.Keys && forall k :: k in field.cells ==> field.cells[k].state == s[k]
      modifies field.cells.Values
      ensures forall k :: k in field.cells ==> field.cells[k].state == s[k]
      ensures forall k :: k in field.cells ==>
                field.cells[k].neighbours == (if k.0 == r then NeighbourCount(s, field.rows, field.columns, k.0, k.1)
                                              else old(field.cells[k].neighbours))
    {
      for c := 0 to field.columns
        invariant forall k :: k in field.cells ==> field.cells[k].state == s[k]
        invariant forall k :: k in field.cells ==>
                    field.cells[k].neighbours == (if k.0 == r && k.1 < c then NeighbourCount(s, field.rows, field.columns, k.0, k.1)
                                                  else old(field.cells[k].neighbours))
      {
        assert (r, c) in Grid(field.rows, field.columns);
        var cell := field.cells[(r, c)];
        field.CellsDistinct((r, c));
        assert field.States() == s;
        ghost var before := field.Counts();
        CountNeighboursForCell(cell);
        forall k | k in field.cells
          ensures field.cells[k].neighbours == (if k.0 == r && k.1 <= c then NeighbourCount(s, field.rows, field.columns, k.0, k.1)
                                                else old(field.cells[k].neighbours))
        {
          if k != (r, c) {
            assert field.cells[k].neighbours == before[k];
          }
        }
      }
    }

    /** The loop of _count_neighbours_for_field: recounts row after row from the states s. */
    method CountNeighboursForRows(ghost s: map<(int, int), CellState>)
      requires Valid()
      requires s.Keys == field.cells.Keys && forall k :: k in field.cells ==> field.cells[k].state == s[k]
      modifies field.cells.Values
      ensures field.States() == s
      ensures field.Counts() == NeighbourCounts(s, field.rows, field.columns)
    {
      for r := 0 to field.rows
        invariant forall k :: k in field.cells ==> field.cells[k].state == s[k]
        invariant forall k :: k in field.cells && k.0 < r ==>
                    field.cells[k].neighbours == NeighbourCount(s, field.rows, field.columns, k.0, k.1)
      {
        ghost var before := field.Counts();
        CountNeighboursForRow(r, s);
        forall k | k in field.cells && k.0 <= r
          ensures field.cells[k].neighbours == NeighbourCount(s, field.rows, field.columns, k.0, k.1)
        {
          if k.0 < r {
            assert field.cells[k].neighbours == before[k];
          }
        }
      }
      field.StatesAre(s);
      field.CountsAre(NeighbourCounts(s, field.rows, field.columns));
    }

    /**
     * _count_neighbours_for_field: recounts every cell from the current states,
     * then invokes the callback exactly once.
     */
    method CountNeighboursForField()
      requires Valid()
      modifies field.cells.Values, onGenerationCreated
      ensures onGenerationCreated.invocations == old(onGenerationCreated.invocations) + 1
      ensures field.States() == old(field.States())
      ensures field.Counts() == NeighbourCounts(old(field.States()), field.rows, field.columns)
    {
      CountNeighboursForRows(field.States());
      NotifyGenerationCreated();
    }

    /** The call of on_generation_created: the callback runs once and the field is left as it is. */
    method NotifyGenerationCreated()
      requires Valid()
      modifies onGenerationCreated
      ensures onGenerationCreated.invocations == old(onGenerationCreated.invocations) + 1
      ensures field.States() == old(field.States()) && field.Counts() == old(field.Counts())
    {
      ghost var states, counts := field.States(), field.Counts();
      onGenerationCreated.Invoke();
      assert field.States() == states && field.Counts() == counts;
    }

    /** One row of create_next_generation: applies the rule to the cells of row r. */
    method ApplyRulesToRow(r: int)
      requires Valid() && 0 <= r < field.rows
      modifies field.cells.Values
      ensures forall k :: k in field.cells ==> field.cells[k].neighbours == old(field.cells[k].neighbours)
      ensures forall k :: k in field.cells ==>
                field.cells[k].state == (if k.0 == r then NextState(old(field.cells[k].state), old(field.cells[k].neighbours))
                                         else old(field.cells[k].state))
    {
      for c := 0 to field.columns
        invariant forall k :: k in field.cells ==> field.cells[k].neighbours == old(field.cells[k].neighbours)
        invariant forall k :: k in field.cells ==>
                    field.cells[k].state == (if k.0 == r && k.1 < c
                                             then NextState(old(field.cells[k].state), old(field.cells[k].neighbours))
                                             else old(field.cells[k].state))
      {
        assert (r, c) in Grid(field.rows, field.columns);
        var cell := field.cells[(r, c)];
        field.CellsDistinct((r, c));
        ApplyRulesAndChangeState(cell);
      }
    }

    /** The rule pass of create_next_generation, row after row. */
    method ApplyRulesToField()
      requires Valid()
      modifies field.cells.Values
      ensures field.Counts() == old(field.Counts())
      ensures field.States() == NextGeneration(old(field.States()), old(field.Counts()))
    {
      ghost var s := field.States();
      ghost var n := field.Counts();
      for r := 0 to field.rows
        invariant forall k :: k in field.cells ==> field.cells[k].neighbours == old(field.cells[k].neighbours)
        invariant forall k :: k in field.cells ==>
                    field.cells[k].state == (if k.0 < r then NextState(old(field.cells[k].state), old(field.cells[k].neighbours))
                                             else old(field.cells[k].state))
      {
        ApplyRulesToRow(r);
      }
      field.CountsAre(n);
      field.StatesAre(NextGeneration(s, n));
    }

    /**
     * create_next_generation: applies the rule to every cell from the counts
     * cached before the pass, adds one to the generation, then recounts.
     */
    method CreateNextGeneration()
      requires Valid()
      modifies this, field.cells.Values, onGenerationCreated
      ensures generation == old(generation) + 1
      ensures onGenerationCreated.invocations == old(onGenerationCreated.invocations) + 1
      ensures field.States() == NextGeneration(old(field.States()), old(field.Counts()))
      ensures field.Counts() == NeighbourCounts(field.States(), field.rows, field.columns)
    {
      ApplyRulesToField();
      ghost var applied := field.States();
      generation := generation + 1;
      assert field.States() == applied;
      CountNeighboursForField();
    }

    /** One row of randomize_next_generation: flips the cells of row r whose coin is true. */
    method RandomizeRow(r: int, coin: ((int, int)) -> bool)
      requires Valid() && 0 <= r < field.rows
      modifies field.cells.Values
      ensures forall k :: k in field.cells ==> field.cells[k].neighbours == old(field.cells[k].neighbours)
      ensures forall k :: k in field.cells ==>
                field.cells[k].state == (if k.0 == r && coin(k) then Toggle(old(field.cells[k].state))
                                         else old(field.cells[k].state))
    {
      for c := 0 to field.columns
        invariant forall k :: k in field.cells ==> field.cells[k].neighbours == old(field.cells[k].neighbours)
        invariant forall k :: k in field.cells ==>
                    field.cells[k].state == (if k.0 == r && k.1 < c && coin(k) then Toggle(old(field.cells[k].state))
                                             else old(field.cells[k].state))
      {
        assert (r, c) in Grid(field.rows, field.columns);
        if coin((r, c)) {
          var o := SwitchCellState(r, c);
        }
      }
    }

    /** The flipping pass of randomize_next_generation, row after row. */
    method RandomizeField(coin: ((int, int)) -> bool)
      requires Valid()
      modifies field.cells.Values
      ensures field.States() == Randomized(old(field.States()), coin)
    {
      ghost var s := field.States();
      for r := 0 to field.rows
        invariant forall k :: k in field.cells ==>
                    field.cells[k].state == (if k.0 < r && coin(k) then Toggle(old(field.cells[k].state))
                                             else old(field.cells[k].state))
      {
        RandomizeRow(r, coin);
      }
      field.StatesAre(Randomized(s, coin));
    }

    /**
     * randomize_next_generation: toggles each cell whose coin comes up true
     * (coin stands for random.getrandbits(1) drawn for that cell), then recounts.
     */
    method RandomizeNextGeneration(coin: ((int, int)) -> bool)
      requires Valid()
      modifies field.cells.Values, onGenerationCreated
      ensures onGenerationCreated.invocations == old(onGenerationCreated.invocations) + 1
      ensures field.States() == Randomized(old(field.States()), coin)
      ensures field.Counts() == NeighbourCounts(field.States(), field.rows, field.columns)
    {
      RandomizeField(coin);
      CountNeighboursForField();
    }
  }
}
