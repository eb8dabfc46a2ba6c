/** The B3/S23 transition of the current engine (rules.py). */
module Rules {
  import opened CellStates
  import opened Cells

  /**
   * The state apply_rules_and_change_state leaves on a cell in state s with
   * n cached neighbours, following the source's branches: for an Alive cell
   * 0-1 dies, 2-3 survives, more than 3 dies; a Dead cell comes alive on
   * exactly 3 and is otherwise not written.
   */
  function NextState(s: CellState, n: NeighbourNumber): CellState
  {
    match s
    case Alive =>
      if n in {0, 1} then Dead
      else if n in {2, 3} && n <= 3 then Alive
      else Dead
    case Dead =>
      if n == 3 then Alive else Dead
  }

  /** The rule table as birth-on-3 / survive-on-2-or-3, for every state and count. */
  lemma {:induction false} NextStateIsB3S23(s: CellState, n: NeighbourNumber)
    ensures NextState(s, n) == Alive <==> n == 3 || (s == Alive && n == 2)
  {
  }

  /** The five rows of the table, one by one. */
  lemma {:induction false} RuleTable(n: NeighbourNumber)
    ensures n <= 1 ==> NextState(Alive, n) == Dead
    ensures 2 <= n <= 3 ==> NextState(Alive, n) == Alive
    ensures n > 3 ==> NextState(Alive, n) == Dead
    ensures n == 3 ==> NextState(Dead, n) == Alive
    ensures n != 3 ==> NextState(Dead, n) == Dead
  {
  }

  /** _rule_alive_from_0_to_1 */
  method RuleAliveFrom0To1(cell: Cell)
    modifies cell
    ensures cell.state == Dead && cell.neighbours == old(cell.neighbours)
  {
    cell.SetState(Dead);
  }

  /** _rule_alive_from_2_to_3 */
  method RuleAliveFrom2To3(cell: Cell)
    modifies cell
    ensures cell.state == Alive && cell.neighbours == old(cell.neighbours)
  {
    cell.SetState(Alive);
  }

  /** _rule_alive_from_4_to_8 */
  method RuleAliveFrom4To8(cell: Cell)
    modifies cell
    ensures cell.state == Dead && cell.neighbours == old(cell.neighbours)
  {
    cell.SetState(Dead);
  }

  /** _rule_dead_equal_to_3 */
  method RuleDeadEqualTo3(cell: Cell)
    modifies cell
    ensures cell.state == Alive && cell.neighbours == old(cell.neighbours)
  {
    cell.SetState(Alive);
  }

  /** _apply_rules_to_alive_cell */
  method ApplyRulesToAliveCell(cell: Cell)
    requires cell.state == Alive
    modifies cell
    ensures cell.state == NextState(Alive, old(cell.neighbours))
    ensures cell.neighbours == old(cell.neighbours)
  {
    if cell.neighbours in {0, 1} {
      RuleAliveFrom0To1(cell);
    } else if cell.neighbours in {2, 3} && cell.neighbours <= 3 {
      RuleAliveFrom2To3(cell);
    } else if cell.neighbours > 3 {
      RuleAliveFrom4To8(cell);
    }
  }

  /** _apply_rules_to_dead_cell: writes only when the count is exactly 3. */
  method ApplyRulesToDeadCell(cell: Cell)
    requires cell.state == Dead
    modifies cell
    ensures cell.state == NextState(Dead, old(cell.neighbours))
    ensures cell.neighbours == old(cell.neighbours)
  {
    if cell.neighbours == 3 {
      RuleDeadEqualTo3(cell);
    }
  }

  /**
   * apply_rules_and_change_state: dispatches on the state and writes only the
   * state, computed from the cell's own state and cached count.
   */
  method ApplyRulesAndChangeState(cell: Cell)
    modifies cell
    ensures cell.state == NextState(old(cell.state), old(cell.neighbours))
    ensures cell.neighbours == old(cell.neighbours)
  {
    match cell.state
    case Alive => ApplyRulesToAliveCell(cell);
    case Dead => ApplyRulesToDeadCell(cell);
  }

  /**
   * One rule pass over a whole field, every cell taken from the same snapshot
   * of states and cached counts.
   */
  function NextGeneration(states: map<(int, int), CellState>, counts: map<(int, int), NeighbourNumber>)
    : (m: map<(int, int), CellState>)
    requires states.Keys <= counts.Keys
    ensures m.Keys == states.Keys
    ensures forall k :: k in m ==> m[k] == NextState(states[k], counts[k])
  {
    map k | k in states :: NextState(states[k], counts[k])
  }

  /**
   * The rule applied to the cells listed in order, one after another, each
   * reading its state as left by the earlier steps and its cached count.
   */
  function ApplyInOrder(states: map<(int, int), CellState>, counts: map<(int, int), NeighbourNumber>,
                        order: seq<(int, int)>): map<(int, int), CellState>
  {
    if order == [] then states
    else
      var k := order[|order| - 1];
      var m := ApplyInOrder(states, counts, order[..|order| - 1]);
      if k in m && k in counts then m[k := NextState(m[k], counts[k])] else m
  }

  /** The states after applying the rule to the cells of done, from the snapshot. */
  ghost function PartlyApplied(states: map<(int, int), CellState>, counts: map<(int, int), NeighbourNumber>,
                               done: set<(int, int)>): map<(int, int), CellState>
    requires states.Keys <= counts.Keys
  {
    map k | k in states :: if k in done then NextState(states[k], counts[k]) else states[k]
  }

  /** Applying the rule along a list without repeats touches each listed cell once, from the snapshot. */
  lemma {:induction false} ApplyInOrderIsPartlyApplied(states: map<(int, int), CellState>,
                                                       counts: map<(int, int), NeighbourNumber>,
                                                       order: seq<(int, int)>)
    requires states.Keys <= counts.Keys
    requires forall i, j :: 0 <= i < j < |order| ==> order[i] != order[j]
    ensures ApplyInOrder(states, counts, order) == PartlyApplied(states, counts, set k | k in order)
  {
    if order == [] {
      assert (set k | k in order) == {};
    } else {
      var k := order[|order| - 1];
      var front := order[..|order| - 1];
      ApplyInOrderIsPartlyApplied(states, counts, front);
      assert (set x | x in order) == (set x | x in front) + {k};
      assert k !in (set x | x in front);
    }
  }

  /**
   * Because the rule reads cached counts only, the pass does not depend on the
   * order in which the cells are visited: any listing of the cells without
   * repeats gives the snapshot result.
   */
  lemma {:induction false} OrderIndependent(states: map<(int, int), CellState>,
                                            counts: map<(int, int), NeighbourNumber>,
                                            order: seq<(int, int)>)
    requires states.Keys <= counts.Keys
    requires forall i, j :: 0 <= i < j < |order| ==> order[i] != order[j]
    requires (set k | k in order) == states.Keys
    ensures ApplyInOrder(states, counts, order) == NextGeneration(states, counts)
  {
    ApplyInOrderIsPartlyApplied(states, counts, order);
  }
}
