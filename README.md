# Game of Life engine (game_of_life_py), modelled in Dafny

This project models the engine of `game_of_life_py`, a Conway's Game of Life
program written in Python. The model has three parts.

- **The current engine** (`gameoflifeapi/logic`).
  - A `Cell` has read-only coordinates, a mutable state and a cached neighbour count in 0..8.
  - A `Field` maps every `(row, column)` of a grid of at least 10 x 10 to its cell.
  - The B3/S23 rules read a cell's state and cached count, and write its state.
  - The driver `GameFlowProcess` toggles cells, recounts neighbours, steps a generation and randomises the field. It reports each recount to a callback.
- **The legacy engine** (`gameoflifeapi/core/classes`).
  - `GameLifeCell` is a plain mutable cell.
  - `GameLife` is a grid stored as a list of rows, with no size check.
  - Its `create_new_generation` updates cells in place, in row-major order. Each cell is counted against the grid as the sweep has already changed it.
- **The controller layer** (`gameoflifeapi/api`).
  - An abstract persistence interface, modelled as an in-memory store from save names to saved games.
  - The controller: a two-state machine, either no game or a game running. It delegates to the driver.
  - The immutable records (DTOs) that pass between these pieces.

How the source is modelled:
- Classes that the source mutates are Dafny classes with `modifies` clauses. Each loop is a `for` loop with invariants.
- Each method is proved against a specification function, such as `NeighbourCount`, `NextGeneration`, `Randomized`, `Changed` or `SweepTo`. The properties are proved as lemmas about those functions.
- Exceptions become values: `Result`/`Outcome` results carrying a `GameError`.
- Randomness comes in as a coin function per coordinate.
- The `on_generation_created` callback is a ghost invocation counter.

The neighbour count of the current engine is modelled as written. The bounds
test at `gameoflifeapi/logic/game_flow_process.py:119` compares the neighbour's
*column* with the number of rows. The corrected count is modelled next to it
(see "Findings"). The two counts agree on every field with
`columns <= rows + 1`, square fields included, and the written one never counts
more than the corrected one.

Files:

| file | module | models |
|---|---|---|
| state.dfy | CellStates | `CellState` and the toggle of `switch_cell_state` |
| exceptions.dfy | Exceptions | the engine's exceptions, as `GameError` values |
| cell.dfy | Cells | `Cell` (`logic/data/cell.py`) |
| field.dfy | Fields | `Field` (`logic/data/field.py`) |
| rules.dfy | Rules | `logic/rules.py`, and the order independence of the rule pass |
| neighbours.dfy | Neighbours | the neighbour count as written, and the corrected count |
| game_flow_process.dfy | GameFlow | `GameFlowProcess` and the 10 x 10 scenarios of its tests |
| dtos.dfy | Dtos | `logic/data/dtos.py` |
| controller.dfy | Controller | `AbstractPersistance`, `AbstractController`, `GameLifeController` |
| legacy_cell.dfy | LegacyCells | `GameLifeCell` (`core/classes/game_cell.py`) |
| game_life.dfy | LegacyGame | `GameLife` (`core/classes/game_life.py`) and its 4 x 5 scenario |

## Model

| member | source | states |
|---|---|---|
| CellStates.Toggle | gameoflifeapi/logic/game_flow_process.py:76-80 | switching a cell writes the other state: Alive becomes Dead and Dead becomes Alive |
| CellStates.ToggleInvolutive | gameoflifeapi/logic/game_flow_process.py:76-80 | switching a cell twice restores its state |
| Cells.ValidateCoordinate | gameoflifeapi/logic/data/cell.py:42-55 | a coordinate passes exactly when it is >= 0; otherwise it fails with CoordinateValue |
| Cells.ValidateNeighbours | gameoflifeapi/logic/data/cell.py:108-120 | a count passes exactly when it is present and in 0..8; None or any other value fails with NeighboursNumber |
| Cells.Cell.constructor | gameoflifeapi/logic/data/cell.py:37-40 | a validated cell stores its row, column and state, with 0 neighbours |
| Cells.Cell.Create | gameoflifeapi/logic/data/cell.py:25-40 | construction fails with CoordinateValue exactly when the row or the column is negative; otherwise it gives a new cell with the given coordinates and state and 0 neighbours |
| Cells.Cell.SetState | gameoflifeapi/logic/data/cell.py:84-97 | the state setter overwrites the state unconditionally and leaves the count unchanged |
| Cells.Cell.SetNeighbours | gameoflifeapi/logic/data/cell.py:108-120 | a value in 0..8 is stored exactly; None or an out-of-range value fails with NeighboursNumber and keeps the old count; the state is unchanged |
| Fields.ValidateFieldSize | gameoflifeapi/logic/data/field.py:24-34 | a dimension passes exactly when it is present and >= 10; otherwise it fails with GameFieldSize |
| Fields.GridSize | gameoflifeapi/logic/data/field.py:36-44 | the coordinates of a rows x columns field number exactly rows * columns |
| Fields.Field.KeysAreGrid | gameoflifeapi/logic/data/field.py:36-44 | the keys of a constructed field are exactly the pairs (r, c) with 0 <= r < rows and 0 <= c < columns |
| Fields.Field.CellsDistinct | gameoflifeapi/logic/data/field.py:40-44 | distinct keys hold distinct cell objects |
| Fields.Field.AddRow | gameoflifeapi/logic/data/field.py:41-44 | one pass of the inner loop adds exactly the keys of row r, each a new Dead cell with 0 neighbours and its own coordinates, and leaves earlier keys as they were |
| Fields.Field.Init | gameoflifeapi/logic/data/field.py:36-44 | after validation the field has the given dimensions, one key per grid coordinate, the cell at (r, c) has row r and column c, and every cell is new, Dead and has 0 neighbours |
| Fields.Field.Create | gameoflifeapi/logic/data/field.py:9-22 | construction fails with GameFieldSize, before any cell is made, exactly when a dimension is None or below 10; otherwise the field has those dimensions and rows * columns new Dead cells with 0 neighbours |
| Fields.CreateDefault | gameoflifeapi/logic/data/field.py:9 | the default arguments give a 10 x 10 field of 100 Dead cells with 0 neighbours |
| Rules.NextStateIsB3S23 | gameoflifeapi/logic/rules.py:62-114 | the rule makes a cell Alive exactly when it has 3 cached neighbours, or is Alive with 2 |
| Rules.RuleTable | gameoflifeapi/logic/rules.py:62-93 | rule by rule: an Alive cell with 0-1 dies, with 2-3 lives and with more than 3 dies; a Dead cell with 3 comes alive and with any other count stays Dead |
| Rules.RuleAliveFrom0To1 | gameoflifeapi/logic/rules.py:10-20 | the cell becomes Dead and its count is unchanged |
| Rules.RuleAliveFrom2To3 | gameoflifeapi/logic/rules.py:23-33 | the cell becomes Alive and its count is unchanged |
| Rules.RuleAliveFrom4To8 | gameoflifeapi/logic/rules.py:36-46 | the cell becomes Dead and its count is unchanged |
| Rules.RuleDeadEqualTo3 | gameoflifeapi/logic/rules.py:49-59 | the cell becomes Alive and its count is unchanged |
| Rules.ApplyRulesToAliveCell | gameoflifeapi/logic/rules.py:62-80 | an Alive cell takes the rule's state for its cached count; the count is unchanged |
| Rules.ApplyRulesToDeadCell | gameoflifeapi/logic/rules.py:83-93 | a Dead cell takes the rule's state for its cached count: Alive on 3, otherwise it stays Dead; the count is unchanged |
| Rules.ApplyRulesAndChangeState | gameoflifeapi/logic/rules.py:96-114 | for either state, the new state depends only on the old state and the cached count; only the state is written |
| Rules.NextGeneration | gameoflifeapi/logic/game_flow_process.py:84-85 | the rule pass, cell by cell from one snapshot of states and counts, keeps the same keys |
| Rules.ApplyInOrderIsPartlyApplied | gameoflifeapi/logic/game_flow_process.py:84-85 | applying the rule in turn along a listing without repeats gives each listed cell its rule state from the snapshot, and leaves the others as they were |
| Rules.OrderIndependent | gameoflifeapi/logic/game_flow_process.py:84-85 | because the rule reads cached counts only, every visiting order of the cells gives the same result, the snapshot pass |
| Neighbours.NeighbourCount | gameoflifeapi/logic/game_flow_process.py:102-130 | the count the driver stores is at most 8 |
| Neighbours.NeighbourCounts | gameoflifeapi/logic/game_flow_process.py:96-99 | the field-wide recount has one count for every key of the field |
| Neighbours.CountedIff | gameoflifeapi/logic/game_flow_process.py:116-129 | on a field, a neighbour (r', c') adds one exactly when 0 <= r' < rows, 0 <= c' < columns, c' <= rows and it is Alive |
| Neighbours.ClippedCount | gameoflifeapi/core/classes/game_life.py:91-108 | the ordinary clipped count, with no quirk, is at most 8 |
| Neighbours.CountIsClippedOnNarrowFields | gameoflifeapi/logic/game_flow_process.py:119-120 | when columns <= rows + 1, square fields included, the driver's count is the clipped count |
| Neighbours.CountAtMostClipped | gameoflifeapi/logic/game_flow_process.py:119-120 | on every field, the driver's count never exceeds the clipped count: the quirk only skips neighbours |
| Neighbours.WideFieldSkipsNeighbours | gameoflifeapi/logic/game_flow_process.py:119 | on an all-Alive 10 x 12 field, (5, 11) is an Alive neighbour inside the field but is not counted; the cell (5, 10) gets 5 instead of 8 |
| Neighbours.WideFieldCount | gameoflifeapi/logic/game_flow_process.py:116-129 | the count as written at (5, 10) of the all-Alive 10 x 12 field is 5 |
| Neighbours.WideFieldClippedCount | gameoflifeapi/logic/game_flow_process.py:116-129 | the clipped count at the same position is 8 |
| Neighbours.ClippedCountUnrolled | gameoflifeapi/core/classes/game_life.py:91-108 | the clipped count is the sum, over the eight offsets, of 1 for each Alive neighbour inside the grid |
| GameFlow.Randomized | gameoflifeapi/logic/game_flow_process.py:91-93 | the randomising pass flips exactly the cells whose coin is true, and no others |
| GameFlow.RandomizedTwiceRestores | gameoflifeapi/logic/game_flow_process.py:91-93 | a second pass with the same coins restores every state |
| GameFlow.Callback.Invoke | gameoflifeapi/logic/game_flow_process.py:100 | each call of the callback adds exactly one to its invocation count |
| GameFlow.GameFlowProcess.Init | gameoflifeapi/logic/game_flow_process.py:35-47 | the driver keeps the field, generation and callback it is given |
| GameFlow.GameFlowProcess.Create | gameoflifeapi/logic/game_flow_process.py:19-47 | a negative generation fails with GenerationValue before anything else; with no field, a dimension below 10 fails with GameFieldSize; otherwise the driver has the given generation and either the very field passed or a new Dead rows x columns field |
| GameFlow.GameFlowProcess.SwitchCellState | gameoflifeapi/logic/game_flow_process.py:67-80 | exactly the cell at (row, column) is flipped, and no count changes; a coordinate that is not a key fails with CellLookup and changes nothing |
| GameFlow.GameFlowProcess.CountNeighboursForCell | gameoflifeapi/logic/game_flow_process.py:102-130 | the cell's count becomes the as-written count of its position in the current states, and no state changes |
| GameFlow.GameFlowProcess.CountNeighboursForRow | gameoflifeapi/logic/game_flow_process.py:98-99 | the cells of one row are recounted from the states as they stand; other counts and all states are unchanged |
| GameFlow.GameFlowProcess.CountNeighboursForRows | gameoflifeapi/logic/game_flow_process.py:98-99 | after the loop every cell's count is its as-written count, and the states are unchanged |
| GameFlow.GameFlowProcess.NotifyGenerationCreated | gameoflifeapi/logic/game_flow_process.py:100 | the callback is invoked once; states and counts are untouched |
| GameFlow.GameFlowProcess.CountNeighboursForField | gameoflifeapi/logic/game_flow_process.py:96-100 | every cell is recounted from the current states, the states are unchanged, and then the callback is invoked exactly once |
| GameFlow.GameFlowProcess.ApplyRulesToRow | gameoflifeapi/logic/game_flow_process.py:84-85 | the cells of one row take their rule state from their own state and cached count; nothing else changes |
| GameFlow.GameFlowProcess.ApplyRulesToField | gameoflifeapi/logic/game_flow_process.py:84-85 | the states become the snapshot rule pass over the states and counts before the pass; counts are unchanged |
| GameFlow.GameFlowProcess.CreateNextGeneration | gameoflifeapi/logic/game_flow_process.py:82-87 | the states become the snapshot rule pass, the generation goes up by exactly 1, every count is recomputed from the new states, and the callback runs once |
| GameFlow.GameFlowProcess.RandomizeRow | gameoflifeapi/logic/game_flow_process.py:91-93 | the cells of one row whose coin is true are flipped; nothing else changes |
| GameFlow.GameFlowProcess.RandomizeField | gameoflifeapi/logic/game_flow_process.py:91-93 | the states become the randomising pass over the old states |
| GameFlow.GameFlowProcess.RandomizeNextGeneration | gameoflifeapi/logic/game_flow_process.py:89-94 | the cells whose coin is true are flipped, every count is recomputed, and the callback runs once |
| GameFlow.DefaultFieldTripleCounts | tests/logic/test_game_flow_process.py:101-105 | on the default field with (0, 0), (0, 1), (0, 2) Alive, the recount gives 1, 2 and 1 |
| GameFlow.DefaultFieldTripleStep | tests/logic/test_game_flow_process.py:101-111 | the next generation from that recount has (0, 0) Dead, (0, 1) Alive and (0, 2) Dead |
| GameFlow.DefaultFieldClusterStates | tests/logic/test_game_flow_process.py:125-130 | the six switched cells are Alive and (2, 0) is Dead |
| GameFlow.DefaultFieldClusterTopCounts | tests/logic/test_game_flow_process.py:125-132 | the recount of the six-cell cluster gives 3, 4, 2, 4 at (0, 0), (0, 1), (0, 2), (1, 0) |
| GameFlow.DefaultFieldClusterLowerCounts | tests/logic/test_game_flow_process.py:125-132 | and 5, 2, 3 at (1, 1), (2, 1), (2, 0) |
| GameFlow.DefaultFieldClusterTopStep | tests/logic/test_game_flow_process.py:134-137 | the next generation has (0, 0) Alive, (0, 1) Dead, (0, 2) Alive and (1, 0) Dead |
| GameFlow.DefaultFieldClusterLowerStep | tests/logic/test_game_flow_process.py:138-140 | and (1, 1) Dead, (2, 1) Alive and (2, 0) Alive |
| Dtos.NewGameData | gameoflifeapi/logic/data/dtos.py:79-95 | a new-game record keeps rows, columns and the random flag, with generation 0 and no field |
| Dtos.LoadGameData | gameoflifeapi/logic/data/dtos.py:101-115 | a load record takes rows and columns from the field, has the random flag off, and keeps the generation and the very field |
| Dtos.SaveGameData | gameoflifeapi/logic/data/dtos.py:121-135 | a save record is built the same way from its generation and field |
| Controller.LookupIn | gameoflifeapi/api/abstract_definitions.py:23-33 | loading a name fails with SaveNotFound exactly when nothing is stored under it; otherwise it gives the load record of the stored generation and field |
| Controller.Stored | gameoflifeapi/api/abstract_definitions.py:12-21 | the store keeps a save record's generation and field |
| Controller.LoadAfterSave | gameoflifeapi/api/abstract_definitions.py:12-33 | loading a name just saved gives back the very record that was saved |
| Controller.SaveLeavesOtherNames | gameoflifeapi/api/abstract_definitions.py:12-21 | saving under one name leaves what every other name loads unchanged |
| Controller.Persistence.SaveGame | gameoflifeapi/api/abstract_definitions.py:12-21 | the record is stored under the name, replacing any earlier one |
| Controller.Persistence.LoadGame | gameoflifeapi/api/abstract_definitions.py:23-33 | the result is the lookup of the name in the store |
| Controller.GameLifeController.constructor | gameoflifeapi/api/game_controller.py:18-28 | a new controller has no game and has not invoked the callback |
| Controller.GameLifeController.Rows | gameoflifeapi/api/abstract_definitions.py:49-58 | rows is 0 with no game, otherwise the field's rows |
| Controller.GameLifeController.Columns | gameoflifeapi/api/abstract_definitions.py:60-69 | columns is 0 with no game, otherwise the field's columns |
| Controller.GameLifeController.ZeroDimensionsIffNoGame | gameoflifeapi/api/abstract_definitions.py:49-69 | a dimension is 0 exactly when no game is running; a running game has both >= 10 |
| Controller.GameLifeController.GameState | gameoflifeapi/api/abstract_definitions.py:71-81 | the state is the running flow's field and generation; with no game it fails with NoGameRunning |
| Controller.GameLifeController.StartNewGame | gameoflifeapi/api/game_controller.py:30-47 | a new flow on a new rows x columns field at generation 0; with the random flag it is randomised, its cached counts are the neighbour counts of the new states and the callback runs once; otherwise it is all Dead, every cached count is 0 and the callback does not run; a size below 10 fails with GameFieldSize and changes nothing |
| Controller.GameLifeController.LoadGame | gameoflifeapi/api/game_controller.py:49-72 | a new flow over the stored field and generation, unchanged, then one callback; a missing save or a negative stored generation fails and changes nothing |
| Controller.GameLifeController.SaveGame | gameoflifeapi/api/game_controller.py:74-90 | the store gets the current generation and field under that name, and loading the name gives back that record; with no game it fails with NoGameRunning |
| Controller.SaveThenLoad | gameoflifeapi/api/game_controller.py:49-90 | saving the running game under a name and then loading that name succeeds both times and gives a new flow over the very field that was running, at the same generation and with the same states, with one callback |
| Controller.GameLifeController.TriggerCell | gameoflifeapi/api/game_controller.py:92-100 | exactly that cell is flipped; no count changes and the callback does not run; with no game, or a coordinate that is not a key, it fails |
| Controller.GameLifeController.IncrementGeneration | gameoflifeapi/api/game_controller.py:102-105 | one generation step of the running flow: the snapshot rule pass, generation + 1, a recount and one callback; with no game it fails with NoGameRunning |
| Controller.GameLifeController.RandomizeCellsState | gameoflifeapi/api/game_controller.py:107-110 | one randomising pass of the running flow: flips, a recount and one callback; with no game it fails with NoGameRunning |
| LegacyCells.GameLifeCell.constructor | gameoflifeapi/core/classes/game_cell.py:13-27 | the cell stores row, col and state as given, with no coordinate check |
| LegacyCells.GameLifeCell.ChangeState | gameoflifeapi/core/classes/game_cell.py:60-67 | the state becomes the given state |
| LegacyCells.GameLifeCell.MakeAlive | gameoflifeapi/core/classes/game_cell.py:70-73 | the state becomes Alive whatever it was, so a second call changes nothing |
| LegacyCells.GameLifeCell.MakeDead | gameoflifeapi/core/classes/game_cell.py:76-79 | the state becomes Dead whatever it was, so a second call changes nothing |
| LegacyGame.LegacyRuleIsNextState | gameoflifeapi/core/classes/game_life.py:112-182 | on every count from 0 to 8, the legacy rule is the current engine's rule |
| LegacyGame.LegacyRuleIsB3S23 | gameoflifeapi/core/classes/game_life.py:112-182 | for every integer count, the legacy rule makes a cell Alive exactly on 3, or on 2 when it is Alive |
| LegacyGame.Changed | gameoflifeapi/core/classes/game_life.py:51-68 | setting listed cells keeps the grid's coordinates |
| LegacyGame.ChangedLastWins | gameoflifeapi/core/classes/game_life.py:243-263 | setting the same cells twice leaves what the second call set |
| LegacyGame.ChangedIgnoresOutside | gameoflifeapi/core/classes/game_life.py:60-64 | a listed coordinate outside the grid changes nothing |
| LegacyGame.RowMajorVisitsGrid | gameoflifeapi/core/classes/game_life.py:275-276 | the sweep order visits exactly the coordinates of the grid |
| LegacyGame.SweepToIsRowMajorSweep | gameoflifeapi/core/classes/game_life.py:275-279 | the state of the sweep before (r, c) is the step-by-step sweep over the row-major order up to (r, c) |
| LegacyGame.DeadFieldIsFixed | gameoflifeapi/core/classes/game_life.py:266-280 | a grid with no Alive cell is unchanged by a sweep in any order |
| LegacyGame.SweepStaysDead | gameoflifeapi/core/classes/game_life.py:266-280 | once the sweep has left no Alive cell, none comes back later in the sweep |
| LegacyGame.TopRowTripleFirstStep | tests/core/classes/test_game_life.py:192-201 | on the 4 x 5 grid with (0, 0), (0, 1), (0, 2) Alive, the sweep first kills (0, 0), which has one neighbour |
| LegacyGame.TopRowTripleSecondStep | tests/core/classes/test_game_life.py:192-201 | then (0, 1), which now sees only (0, 2), dies too |
| LegacyGame.TopRowTripleThirdStep | tests/core/classes/test_game_life.py:192-201 | then (0, 2), which sees no Alive neighbour, dies, and no Alive cell is left |
| LegacyGame.TopRowTripleCleared | tests/core/classes/test_game_life.py:192-201 | killing the three cells leaves no Alive cell on the grid |
| LegacyGame.TopRowTripleSweptAway | tests/core/classes/test_game_life.py:192-201 | after the whole sweep the grid has no Alive cell |
| LegacyGame.TopRowTripleMiddleCount | tests/core/classes/test_game_life.py:192-201 | on the unchanged grid, (0, 1) has two Alive neighbours |
| LegacyGame.TopRowTripleBelowCount | tests/core/classes/test_game_life.py:192-201 | and (1, 1) has three |
| LegacyGame.TopRowTripleSnapshot | gameoflifeapi/core/classes/game_life.py:275-279 | counting from a snapshot instead would keep (0, 1) alive and bring (1, 1) to life, and at both cells the state after the in-place sweep differs from the snapshot rule's state |
| LegacyGame.GameLife.Rows | gameoflifeapi/core/classes/game_life.py:197-205 | rows is the number of row lists, which is the requested row count, or 0 when that is not positive |
| LegacyGame.GameLife.Cols | gameoflifeapi/core/classes/game_life.py:207-218 | cols is the length of the first row, or 0 when there is no row |
| LegacyGame.GameLife.FieldView | gameoflifeapi/core/classes/game_life.py:184-195 | field gives new lists that hold the very same cell objects, row by row and column by column |
| LegacyGame.GameLife.PreviousFieldView | gameoflifeapi/core/classes/game_life.py:230-241 | previous_field gives the very cells of the current field too |
| LegacyGame.GameLife.IsTheFinalGeneration | gameoflifeapi/core/classes/game_life.py:282-292 | is_the_final_generation holds exactly when the generation is above 0, because the previous field is the game field itself |
| LegacyGame.GameLife.constructor | gameoflifeapi/core/classes/game_life.py:17-30 | any sizes are accepted; the grid has the requested number of rows of the requested number of new Dead cells, the cell at [r][c] has row r and col c, the previous field is the same grid, and the generation is 0 |
| LegacyGame.GameLife.NewRow | gameoflifeapi/core/classes/game_life.py:47-48 | one row of the grid: a new Dead cell for every column, carrying its own coordinates |
| LegacyGame.GameLife.ChangeRow | gameoflifeapi/core/classes/game_life.py:62-66 | in row r, exactly the listed cells take the state; every other cell is unchanged |
| LegacyGame.GameLife.ChangeCellState | gameoflifeapi/core/classes/game_life.py:51-68 | every listed coordinate of the grid takes the state; other cells are unchanged and coordinates outside the grid are ignored |
| LegacyGame.GameLife.SetAliveCells | gameoflifeapi/core/classes/game_life.py:243-252 | the listed cells become Alive, and nothing else changes |
| LegacyGame.GameLife.SetDeadCells | gameoflifeapi/core/classes/game_life.py:254-263 | the listed cells become Dead, and nothing else changes |
| LegacyGame.GameLife.CountAmountAliveNeighbour | gameoflifeapi/core/classes/game_life.py:71-109 | the result is the number of Alive cells among the eight neighbours that lie inside the grid, so it is in 0..8 |
| LegacyGame.GameLife.IsAliveNeighbour | gameoflifeapi/core/classes/game_life.py:98-107 | a neighbour counts exactly when it is inside range(rows) x range(cols) and Alive |
| LegacyGame.GameLife.ApplyRulesToAliveCell | gameoflifeapi/core/classes/game_life.py:136-163 | the cell becomes Alive on 2 or 3 and Dead on any other count |
| LegacyGame.GameLife.ApplyRulesToDeadCell | gameoflifeapi/core/classes/game_life.py:166-182 | the cell becomes Alive on 3; on any other count it is left unchanged |
| LegacyGame.GameLife.ApplyRulesAndChangeState | gameoflifeapi/core/classes/game_life.py:112-133 | the cell takes the legacy rule's state for its own state and the given count |
| LegacyGame.GameLife.SweepCell | gameoflifeapi/core/classes/game_life.py:276-279 | one cell is counted against the grid as it stands and takes the rule's state; no other cell changes |
| LegacyGame.GameLife.SweepRow | gameoflifeapi/core/classes/game_life.py:276-279 | the cells of one row are swept in column order |
| LegacyGame.GameLife.CreateNewGeneration | gameoflifeapi/core/classes/game_life.py:266-280 | the grid becomes the in-place row-major sweep of the old grid, each cell counted against the cells already changed, and the generation goes up by exactly 1 |

## Left out

- Logging, the `beartype` decorators and `__repr__`: they have no effect on the state.
- The Qt widgets and the console front ends: they handle rendering, input and the terminal.
- Pickle persistence, `gameoflifeapi/api/persistance.py`: it does file I/O. The abstract store is modelled as a map from names to a generation and a field.
  - The store keeps references to the field; the copy that pickling makes is not modelled.
  - A missing name is modelled as a SaveNotFound failure.
- `random.getrandbits(1)`: the source draws one bit per cell. The randomising methods take a coin function instead, one boolean per coordinate.
- The `on_generation_created` callback: its effect lies outside the engine, so it is modelled as an invocation counter. The default handler that the driver installs when given none only logs, so it is modelled the same way.
- Dictionary iteration order: `all_cells` is filled in row-major order, and the driver's loops are modelled as nested row/column loops in that order. The rule pass is proved independent of the order anyway.
- Default arguments: `Field()`, `GameFlowProcess()` and `GameLife()` default to 10 x 10. Arguments are explicit, except for `Field.CreateDefault`.
- The `state` setter of `Cell` rejects values other than DEAD and ALIVE. `CellState` has no other values, so that branch cannot occur in the model.
- `GameFieldValueException` is raised nowhere in the engine.
- `Cells.Cell.constructor` and `GameFlow.GameFlowProcess.Init`: these take already validated arguments (coordinates as `nat`, a well-formed field). Their validation is modelled by the `Create` method beside each.
- The legacy states: ALIVE = 0 and DEAD = 1 in `game_enums.py`, and DEAD = 0, ALIVE = 1 in `logic/data/state.py`. Both enums map onto the one `CellState`; the numeric codes are not used anywhere in the engine's logic.
- Generation counters are unbounded naturals. Python integers do not overflow.
- `GameFlow.GameFlowProcess.Create`: the `if not game_field` test treats every `Field` object as present, as Python does for objects without `__bool__` or `__len__`.
- Not proved as scenarios:
  - the legacy test's second scenario, a six-cell cluster after a first sweep (tests/core/classes/test_game_life.py:203-214);
  - the 5 x 5 final-generation test, which follows from `IsTheFinalGeneration` after any generation.
- The legacy tests read an attribute `.generation`. The class's property is `game_life_generation`; the model exposes `generation`.
- Tests calling `_get_neighbour_cells`: the driver has no such method, and none is invented.
- `LegacyGame.GameLife.CreateNewGeneration` states its result as `SweepTo`, the sweep indexed by (row, column). Its equality with the sweep over the row-major order is the separate lemma `SweepToIsRowMajorSweep`.

## Findings

| source | as written | input that shows it | evidently intended | confidence | as-written member | corrected member |
|---|---|---|---|---|---|---|
| gameoflifeapi/logic/game_flow_process.py:119 | the row test is `to_visit_row < 0 or to_visit_col > rows`: it compares the neighbour's column with the number of rows | a 10 x 12 field with every cell Alive. Cell (5, 10) has 8 Alive neighbours inside the field, but only 5 are counted, because the three in column 11 fail `11 > 10`. A cell can then die or fail to be born wrongly | `to_visit_row < 0 or to_visit_row >= rows`, i.e. only neighbours inside the field and Alive are counted | not executed; proved on the model | Neighbours.WideFieldSkipsNeighbours | Neighbours.ClippedCount |

The driver keeps the as-written count, `Neighbours.NeighbourCount`, because that is what it computes. The corrected count is `Neighbours.ClippedCount`. `Neighbours.ClippedCountUnrolled` proves it is the sum over the eight in-grid neighbours. It is the count the legacy engine computes, and the 10 x 10 scenarios of the driver's tests are evaluated through it. `Neighbours.CountAtMostClipped` proves the written count never exceeds the corrected count, and `Neighbours.CountIsClippedOnNarrowFields` proves the two agree whenever `columns <= rows + 1`. The column test `to_visit_col > columns` on the next line is also off by one, but harmless: column `columns` is not a key, so the `KeyError` handler skips it.
