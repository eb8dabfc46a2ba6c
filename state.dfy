/** The two states a cell of the field can be in (CellState). */
module CellStates {

  datatype CellState = Dead | Alive

  /** The opposite state: what a toggle of a cell writes. */
  function Toggle(s: CellState): (t: CellState)
    ensures t != s
  {
    if s == Alive then Dead else Alive
  }

  lemma {:induction false} ToggleInvolutive(s: CellState)
    ensures Toggle(Toggle(s)) == s
  {
  }
}
