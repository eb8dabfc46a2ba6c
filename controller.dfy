/**
 * The controller layer above the driver: an abstract persistence store and the
 * controller, a two-state machine (no game / game running) that delegates to
 * GameFlowProcess.
 */
module Controller {
  import opened CellStates
  import opened Exceptions
  import opened Cells
  import opened Fields
  import opened Rules
  import opened Neighbours
  import opened Dtos
  import opened GameFlow

  /** What the store keeps under a name: the generation and the field handed over. */
  datatype SavedGame = SavedGame(generation: int, field: Field)

  /**
   * load_game of the store as a function of its contents: the load record built
   * from what was saved under name, or a failure when nothing was.
   */
  function LookupIn(games: map<string, SavedGame>, name: string): (r: Result<GameDataDto>)
    ensures r.Failure? <==> name !in games
    ensures r.Failure? ==> r.error == SaveNotFound
    ensures r.Success? ==> DescribesField(r.value)
    ensures r.Success? ==> r.value.generation == games[name].generation && r.value.gameField == games[name].field
  {
    if name !in games then Failure(SaveNotFound)
    else Success(LoadGameData(games[name].generation, games[name].field))
  }

  /** What save_game stores for a save record. */
  function Stored(data: GameDataDto): (s: SavedGame)
    requires DescribesField(data)
    ensures s.generation == data.generation && s.field == data.gameField
  {
    SavedGame(data.generation, data.gameField)
  }

  /** Loading a name just saved gives back the very record that was saved. */
  lemma {:induction false} LoadAfterSave(games: map<string, SavedGame>, name: string, data: GameDataDto)
    requires DescribesField(data)
    ensures LookupIn(games[name := Stored(data)], name) == Success(data)
  {
    assert data == LoadGameData(data.generation, data.gameField);
  }

  /** Saving under one name leaves what every other name loads untouched. */
  lemma SaveLeavesOtherNames(games: map<string, SavedGame>, name: string, other: string, data: GameDataDto)
    requires DescribesField(data) && other != name
    ensures LookupIn(games[name := Stored(data)], other) == LookupIn(games, other)
  {
  }

  /** AbstractPersistance, as an in-memory store from save names to saved games. */
  class Persistence {
    var games: map<string, SavedGame>

    /** Every stored field is a well-formed field. */
    ghost predicate Valid()
      reads this
    {
      forall name :: name in games ==> games[name].field.WellFormed()
    }

    constructor ()
      ensures games == map[] && Valid()
    {
      games := map[];
    }

    /** save_game(file_name, save_game_data): stores the record under the name, replacing any earlier one. */
    method SaveGame(name: string, data: GameDataDto)
      requires Valid() && DescribesField(data) && data.gameField.WellFormed()
      modifies this
      ensures Valid()
      ensures games == old(games)[name := Stored(data)]
    {
      games := games[name := Stored(data)];
    }

    /** load_game(file_name): the load record for the name, or SaveNotFound when nothing is stored under it. */
    method LoadGame(name: string) returns (r: Result<GameDataDto>)
      requires Valid()
      ensures r == LookupIn(games, name)
      ensures r.Success? ==> r.value.gameField.WellFormed()
    {
      if name !in games {
        return Failure(SaveNotFound);
      }
      var saved := games[name];
      r := Success(LoadGameData(saved.generation, saved.field));
    }
  }

  /**
   * GameLifeController. The callback on_generation_created it is given is the
   * one every flow it creates invokes; a call made while no game is running,
   * which the code answers with an AttributeError on None, fails with NoGameRunning.
   */
  class GameLifeController {
    const persistence: Persistence
    const onGenerationCreated: Callback
    var gameFlow: GameFlowProcess?

    /**
     * The store is valid, and a running flow is valid, shares the controller's
     * callback, and none of its cells is one of the controller's other objects.
     */
    ghost predicate Valid()
      reads this, persistence
    {
      && persistence.Valid()
      && (gameFlow != null ==>
            && gameFlow.Valid()
            && gameFlow.onGenerationCreated == onGenerationCreated
            && (forall k :: k in gameFlow.field.cells ==> gameFlow.field.cells[k] as object != this)
            && (forall k :: k in gameFlow.field.cells ==> gameFlow.field.cells[k] as object != persistence))
    }

    /** AbstractController.__init__ and GameLifeController.__init__: no game yet, and the callback is not invoked. */
    constructor (persistence: Persistence, onGenerationCreated: Callback)
      requires persistence.Valid()
      ensures Valid()
      ensures this.persistence == persistence && this.onGenerationCreated == onGenerationCreated
      ensures gameFlow == null
      ensures onGenerationCreated.invocations == old(onGenerationCreated.invocations)
    {
      this.persistence := persistence;
      this.onGenerationCreated := onGenerationCreated;
      gameFlow := null;
    }

    /** The rows property: the running field's rows, 0 without a game. */
    function Rows(): (n: int)
      reads this
      ensures gameFlow == null ==> n == 0
      ensures gameFlow != null ==> n == gameFlow.field.rows
    {
      if gameFlow != null then gameFlow.field.rows else 0
    }

    /** The columns property: the running field's columns, 0 without a game. */
    function Columns(): (n: int)
      reads this
      ensures gameFlow == null ==> n == 0
      ensures gameFlow != null ==> n == gameFlow.field.columns
    {
      if gameFlow != null then gameFlow.field.columns else 0
    }

    /** Since every field is at least 10 x 10, a zero dimension means exactly that no game is running. */
    lemma ZeroDimensionsIffNoGame()
      requires Valid()
      ensures Rows() == 0 <==> gameFlow == null
      ensures Columns() == 0 <==> gameFlow == null
      ensures gameFlow != null ==> Rows() >= 10 && Columns() >= 10
    {
    }

    /** The game_state property: the running flow's field and generation. */
    function GameState(): (r: Result<GameStateDto>)
      reads this, gameFlow
      ensures r.Failure? <==> gameFlow == null
      ensures r.Failure? ==> r.error == NoGameRunning
      ensures r.Success? ==> r.value.gameField == gameFlow.field && r.value.generation == gameFlow.generation
    {
      if gameFlow == null then Failure(NoGameRunning)
      else Success(GameStateDto(gameFlow.field, gameFlow.generation))
    }

    /**
     * start_new_game(new_game_data): replaces the flow by a fresh one on a new
     * rows x columns field at generation 0, randomised (one callback) when the
     * flag is set. A size the field rejects leaves the controller as it was.
     */
    method StartNewGame(data: GameDataDto, coin: ((int, int)) -> bool) returns (o: Outcome)
      requires Valid()
      modifies this, onGenerationCreated
      ensures Valid()
      ensures o.Fail? <==> data.numberOfRows < 10 || data.numberOfColumns < 10
      ensures o.Fail? ==> o.error == GameFieldSize && gameFlow == old(gameFlow)
      ensures o.Fail? ==> onGenerationCreated.invocations == old(onGenerationCreated.invocations)
      ensures o.Pass? ==> fresh(gameFlow) && fresh(gameFlow.field) && gameFlow.generation == 0
      ensures o.Pass? ==> Rows() == data.numberOfRows && Columns() == data.numberOfColumns
      ensures o.Pass? ==> forall k :: k in gameFlow.field.cells ==>
                gameFlow.field.cells[k].state == (if data.isRandomFirstGeneration && coin(k) then Alive else Dead)
      ensures o.Pass? && data.isRandomFirstGeneration ==>
                gameFlow.field.Counts() == NeighbourCounts(gameFlow.field.States(), Rows(), Columns())
      ensures o.Pass? && !data.isRandomFirstGeneration ==> gameFlow.field.Counts() == map k | k in gameFlow.field.cells :: 0
      ensures o.Pass? ==> onGenerationCreated.invocations
                          == old(onGenerationCreated.invocations) + (if data.isRandomFirstGeneration then 1 else 0)
    {
      var r := GameFlowProcess.Create(data.numberOfRows, data.numberOfColumns, 0, null, onGenerationCreated);
      if r.Failure? {
        return Fail(r.error);
      }
      gameFlow := r.value;
      if data.isRandomFirstGeneration {
        gameFlow.RandomizeNextGeneration(coin);
      } else {
        gameFlow.field.CountsAre(map k | k in gameFlow.field.cells :: 0);
      }
      o := Pass;
    }

    /**
     * load_game(save_file_name): a new flow over the stored field and generation,
     * then one callback. A missing save, or a negative stored generation, fails
     * and leaves the controller as it was.
     */
    method LoadGame(name: string) returns (o: Outcome)
      requires Valid()
      modifies this, onGenerationCreated
      ensures Valid()
      ensures o.Fail? <==> LookupIn(persistence.games, name).Failure? || LookupIn(persistence.games, name).value.generation < 0
      ensures o.Fail? ==> o.error == (if name !in persistence.games then SaveNotFound else GenerationValue)
      ensures o.Fail? ==> gameFlow == old(gameFlow) && onGenerationCreated.invocations == old(onGenerationCreated.invocations)
      ensures o.Pass? ==> fresh(gameFlow)
      ensures o.Pass? ==> gameFlow.field == persistence.games[name].field
      ensures o.Pass? ==> gameFlow.generation == persistence.games[name].generation
      ensures o.Pass? ==> onGenerationCreated.invocations == old(onGenerationCreated.invocations) + 1
    {
      var loaded := persistence.LoadGame(name);
      if loaded.Failure? {
        return Fail(loaded.error);
      }
      var gameField := loaded.value.gameField;
      var r := GameFlowProcess.Create(gameField.rows, gameField.columns, loaded.value.generation, gameField,
                                      onGenerationCreated);
      if r.Failure? {
        return Fail(r.error);
      }
      gameFlow := r.value;
      onGenerationCreated.Invoke();
      o := Pass;
    }

    /** save_game(save_file_name): hands the current field and generation to the store under that name. */
    method SaveGame(name: string) returns (o: Outcome)
      requires Valid()
      modifies persistence
      ensures Valid()
      ensures o.Fail? <==> gameFlow == null
      ensures o.Fail? ==> o.error == NoGameRunning && persistence.games == old(persistence.games)
      ensures o.Pass? ==> persistence.games == old(persistence.games)[name := SavedGame(gameFlow.generation, gameFlow.field)]
      ensures o.Pass? ==> LookupIn(persistence.games, name) == Success(SaveGameData(gameFlow.generation, gameFlow.field))
    {
      if gameFlow == null {
        return Fail(NoGameRunning);
      }
      var data := SaveGameData(gameFlow.generation, gameFlow.field);
      persistence.SaveGame(name, data);
      LoadAfterSave(old(persistence.games), name, data);
      o := Pass;
    }

    /** trigger_cell(row, column): toggles that one cell; no recount and no callback. */
    method TriggerCell(row: int, column: int) returns (o: Outcome)
      requires Valid()
      modifies if gameFlow == null then {} else gameFlow.field.cells.Values
      ensures Valid()
      ensures o.Fail? <==> gameFlow == null || (row, column) !in gameFlow.field.cells
      ensures o.Fail? ==> o.error == (if gameFlow == null then NoGameRunning else CellLookup)
      ensures gameFlow != null ==> forall k :: k in gameFlow.field.cells ==>
                gameFlow.field.cells[k].state == (if k == (row, column) then Toggle(old(gameFlow.field.cells[k].state))
                                                  else old(gameFlow.field.cells[k].state))
      ensures gameFlow != null ==> forall k :: k in gameFlow.field.cells ==>
                gameFlow.field.cells[k].neighbours == old(gameFlow.field.cells[k].neighbours)
    {
      if gameFlow == null {
        return Fail(NoGameRunning);
      }
      o := gameFlow.SwitchCellState(row, column);
    }

    /** increment_generation: one create_next_generation of the running flow, hence one callback. */
    method IncrementGeneration() returns (o: Outcome)
      requires Valid()
      modifies gameFlow, onGenerationCreated, if gameFlow == null then {} else gameFlow.field.cells.Values
      ensures Valid()
      ensures o.Fail? <==> gameFlow == null
      ensures o.Fail? ==> o.error == NoGameRunning
      ensures o.Fail? ==> onGenerationCreated.invocations == old(onGenerationCreated.invocations)
      ensures o.Pass? ==> gameFlow.generation == old(gameFlow.generation) + 1
      ensures o.Pass? ==> onGenerationCreated.invocations == old(onGenerationCreated.invocations) + 1
      ensures o.Pass? ==> gameFlow.field.States() == NextGeneration(old(gameFlow.field.States()), old(gameFlow.field.Counts()))
      ensures o.Pass? ==> gameFlow.field.Counts() == NeighbourCounts(gameFlow.field.States(), Rows(), Columns())
    {
      if gameFlow == null {
        return Fail(NoGameRunning);
      }
      gameFlow.CreateNextGeneration();
      o := Pass;
    }

    /** randomize_cells_state: one randomize_next_generation of the running flow, hence one callback. */
    method RandomizeCellsState(coin: ((int, int)) -> bool) returns (o: Outcome)
      requires Valid()
      modifies onGenerationCreated, if gameFlow == null then {} else gameFlow.field.cells.Values
      ensures Valid()
      ensures o.Fail? <==> gameFlow == null
      ensures o.Fail? ==> o.error == NoGameRunning
      ensures o.Fail? ==> onGenerationCreated.invocations == old(onGenerationCreated.invocations)
      ensures o.Pass? ==> onGenerationCreated.invocations == old(onGenerationCreated.invocations) + 1
      ensures o.Pass? ==> gameFlow.field.States() == Randomized(old(gameFlow.field.States()), coin)
      ensures o.Pass? ==> gameFlow.field.Counts() == NeighbourCounts(gameFlow.field.States(), Rows(), Columns())
    {
      if gameFlow == null {
        return Fail(NoGameRunning);
      }
      gameFlow.RandomizeNextGeneration(coin);
      o := Pass;
    }
  }

  /**
   * save_game(name) followed by load_game(name) on the same controller: the
   * reloaded flow is a new flow over the very field that was running, at the
   * same generation, and the load invokes the callback once.
   */
  method SaveThenLoad(controller: GameLifeController, name: string) returns (saved: Outcome, loaded: Outcome)
    requires controller.Valid() && controller.gameFlow != null
    modifies controller, controller.persistence, controller.onGenerationCreated
    ensures controller.Valid()
    ensures saved.Pass? && loaded.Pass?
    ensures fresh(controller.gameFlow)
    ensures controller.gameFlow.field == old(controller.gameFlow.field)
    ensures controller.gameFlow.generation == old(controller.gameFlow.generation)
    ensures controller.gameFlow.field.States() == old(controller.gameFlow.field.States())
    ensures controller.onGenerationCreated.invocations == old(controller.onGenerationCreated.invocations) + 1
  {
    saved := controller.SaveGame(name);
    loaded := controller.LoadGame(name);
  }
}
