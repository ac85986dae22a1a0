/** The worker's state and how each message and each timer tick changes it (worker.js), as
    functions on values. The class in worker.dfy carries out the same transitions in place. */
module WorkerProtocol {
  import opened Common
  import opened ChangeLists
  import opened LifeRules
  import opened CellEdits

  /** The worker's module-level variables, except the interval handle (which is
      `simulationRunning` as far as the state machine is concerned). */
  datatype WorkerState = WorkerState(
    liveCells: set<Cell>,
    gridSizeX: int,
    gridSizeY: int,
    simulationRunning: bool,
    gameSpeed: int,
    generationCount: int)

  /** The values the worker script starts with (worker.js, lines 4-10). */
  function InitialState(): (s: WorkerState)
    ensures s.liveCells == {} && !s.simulationRunning && s.generationCount == 0
    ensures s.gridSizeX == 0 && s.gridSizeY == 0 && s.gameSpeed == 100
  {
    WorkerState({}, 0, 0, false, 100, 0)
  }

  /** `startGameLoop`: only a stopped loop starts, and starting resets the generation counter. */
  function StartLoop(s: WorkerState): WorkerState
  {
    if !s.simulationRunning then s.(simulationRunning := true, generationCount := 0) else s
  }

  /** `stopGameLoop`. */
  function StopLoop(s: WorkerState): WorkerState
  {
    s.(simulationRunning := false)
  }

  /** One timer tick, `updateGameStateSparse`: before the sizes are set it stops the loop;
      otherwise it advances one generation. (The changes it posts are any list satisfying
      `IsDiff`; their order follows the iteration order of the JavaScript `Set`.) */
  function TickState(s: WorkerState): WorkerState
  {
    if s.gridSizeX == 0 || s.gridSizeY == 0 then StopLoop(s)
    else s.(liveCells := NextGeneration(s.liveCells, s.gridSizeX, s.gridSizeY),
            generationCount := s.generationCount + 1)
  }

  /** The `config` object of an `init` message. */
  datatype Config = Config(gridSizeX: int, gridSizeY: int, gameSpeed: int)

  /** One element of the `initialGameState` array: an array whose entries are recorded as
      "is exactly `true`", or something that is not an array. */
  datatype Row = Entries(isTrue: seq<bool>) | NotARow

  /** `initialGameState`: an array of rows, or a truthy value that is not an array. */
  datatype GameStateValue = Rows(rows: seq<Row>) | NotAnArray

  /** The messages the worker receives. `None` stands for a missing or falsy field
      (for `cells`: one that is not an array; for `gameSpeed`: one that is not a number). */
  datatype Message =
    | NotAnObject
    | Init(config: Option<Config>, initialGameState: Option<GameStateValue>)
    | Start
    | Stop
    | SetCells(cells: Option<seq<CellRequest>>)
    | UpdateSpeed(gameSpeed: Option<int>)
    | UnknownType

  /** The cells the nested loops of `init` add: every `(x, y)` whose entry is exactly `true`. */
  function GridCells(rows: seq<Row>): set<Cell>
  {
    set y, x | 0 <= y < |rows| && rows[y].Entries? && 0 <= x < |rows[y].isTrue| && rows[y].isTrue[x] :: Cell(x, y)
  }

  /** The new state and the changes posted back as a `stateChanges` message (none if empty). */
  datatype Reaction = Reaction(state: WorkerState, changes: seq<Change>)

  /** `self.onmessage`. */
  function HandleMessage(s: WorkerState, msg: Message): Reaction
  {
    match msg
    case NotAnObject => Reaction(s, [])
    case Init(config, initialGameState) =>
      if config.None? || initialGameState.None? then Reaction(s, [])
      else
        var stopped := StopLoop(s);
        var configured := stopped.(gridSizeX := config.value.gridSizeX, gridSizeY := config.value.gridSizeY,
                                   gameSpeed := config.value.gameSpeed, liveCells := {});
        if initialGameState.value.NotAnArray? then Reaction(configured, [])
        else Reaction(configured.(liveCells := GridCells(initialGameState.value.rows)), [])
    case Start => Reaction(StartLoop(s), [])
    case Stop => Reaction(StopLoop(s), [])
    case SetCells(cells) =>
      if cells.None? then Reaction(s, [])
      else
        var e := ApplyRequests(s.liveCells, s.gridSizeX, s.gridSizeY, cells.value);
        Reaction(s.(liveCells := e.liveCells), e.changes)
    case UpdateSpeed(gameSpeed) =>
      if gameSpeed.Some? && gameSpeed.value > 0 then
        var updated := s.(gameSpeed := gameSpeed.value);
        if updated.simulationRunning then Reaction(StartLoop(StopLoop(updated)), [])
        else Reaction(updated, [])
      else Reaction(s, [])
    case UnknownType => Reaction(s, [])
  }

  /** Every live cell lies on the grid. */
  ghost predicate CellsOnGrid(s: WorkerState)
  {
    WithinGrid(s.liveCells, s.gridSizeX, s.gridSizeY)
  }

  /** Every `true` entry of the rows lies inside a `sizeX` by `sizeY` grid. */
  predicate RowsFit(rows: seq<Row>, sizeX: int, sizeY: int)
  {
    forall y, x | 0 <= y < |rows| && rows[y].Entries? && 0 <= x < |rows[y].isTrue| && rows[y].isTrue[x] ::
      y < sizeY && x < sizeX
  }

  // ---- Loop control ----

  lemma StartThenStop(s: WorkerState)
    ensures StartLoop(StartLoop(s)) == StartLoop(s)
    ensures StopLoop(StopLoop(s)) == StopLoop(s)
    ensures StartLoop(s).simulationRunning && !StopLoop(s).simulationRunning
    ensures StartLoop(s).liveCells == s.liveCells && StopLoop(s).liveCells == s.liveCells
    ensures StopLoop(s).generationCount == s.generationCount
    ensures StartLoop(s).generationCount == (if s.simulationRunning then s.generationCount else 0)
    ensures s.simulationRunning ==> StartLoop(s) == s
    ensures !s.simulationRunning ==> StopLoop(s) == s
  {
  }

  /** Changing the speed of a running simulation restarts it, which resets the generation
      counter; a stopped simulation keeps its counter. */
  lemma SpeedChangeRestartsCounter(s: WorkerState, v: int)
    requires v > 0
    ensures var r := HandleMessage(s, UpdateSpeed(Some(v)));
      && r.state.gameSpeed == v
      && r.state.simulationRunning == s.simulationRunning
      && r.state.generationCount == (if s.simulationRunning then 0 else s.generationCount)
      && r.state.liveCells == s.liveCells
      && r.changes == []
  {
  }

  /** A speed that is not a positive number is ignored. */
  lemma BadSpeedIgnored(s: WorkerState, v: Option<int>)
    requires v.None? || v.value <= 0
    ensures HandleMessage(s, UpdateSpeed(v)) == Reaction(s, [])
  {
  }

  // ---- init ----

  /** A complete `init` stops the simulation, installs the configuration and replaces the live
      set with the `true` entries of the array; the generation counter is left alone. */
  lemma InitReplacesState(s: WorkerState, config: Config, rows: seq<Row>)
    ensures var r := HandleMessage(s, Init(Some(config), Some(Rows(rows))));
      && !r.state.simulationRunning
      && r.state.gridSizeX == config.gridSizeX && r.state.gridSizeY == config.gridSizeY
      && r.state.gameSpeed == config.gameSpeed
      && (forall x, y :: Cell(x, y) in r.state.liveCells <==>
            0 <= y < |rows| && rows[y].Entries? && 0 <= x < |rows[y].isTrue| && rows[y].isTrue[x])
      && r.state.generationCount == s.generationCount
      && r.changes == []
  {
  }

  /** An `init` whose state is not an array has already cleared the live set when it gives up. */
  lemma InitWithNonArrayClears(s: WorkerState, config: Config)
    ensures HandleMessage(s, Init(Some(config), Some(NotAnArray))).state.liveCells == {}
  {
  }

  /** An `init` missing its config or its state is ignored altogether. */
  lemma IncompleteInitIgnored(s: WorkerState, config: Option<Config>, state: Option<GameStateValue>)
    requires config.None? || state.None?
    ensures HandleMessage(s, Init(config, state)) == Reaction(s, [])
  {
  }

  /** `init` does not check the array against the configured size: the live set lies on the
      grid exactly when every `true` entry does. */
  lemma InitOnGridIffRowsFit(s: WorkerState, config: Config, rows: seq<Row>)
    ensures CellsOnGrid(HandleMessage(s, Init(Some(config), Some(Rows(rows)))).state)
        <==> RowsFit(rows, config.gridSizeX, config.gridSizeY)
  {
    var live := GridCells(rows);
    if RowsFit(rows, config.gridSizeX, config.gridSizeY) {
      forall c | c in live
        ensures InGrid(c, config.gridSizeX, config.gridSizeY)
      {
        var y, x :| 0 <= y < |rows| && rows[y].Entries? && 0 <= x < |rows[y].isTrue| && rows[y].isTrue[x] && c == Cell(x, y);
      }
    } else {
      var y, x :| 0 <= y < |rows| && rows[y].Entries? && 0 <= x < |rows[y].isTrue| && rows[y].isTrue[x]
                  && !(y < config.gridSizeY && x < config.gridSizeX);
      assert Cell(x, y) in live;
    }
  }

  /** A concrete case: a 1-by-1 grid initialised with a 1-by-2 array holds a cell off the grid. */
  lemma InitAcceptsOversizedArray()
    ensures !CellsOnGrid(HandleMessage(InitialState(), Init(Some(Config(1, 1, 100)), Some(Rows([Entries([false, true])])))).state)
  {
    InitOnGridIffRowsFit(InitialState(), Config(1, 1, 100), [Entries([false, true])]);
    assert !RowsFit([Entries([false, true])], 1, 1) by {
      assert [Entries([false, true])][0].isTrue[1];
    }
  }

  // ---- setCells ----

  /** `setCells` touches only the live set, and reports exactly a replayable log of what it did. */
  lemma SetCellsTouchesOnlyCells(s: WorkerState, requests: seq<CellRequest>)
    ensures var r := HandleMessage(s, SetCells(Some(requests)));
      && r.state == s.(liveCells := r.state.liveCells)
      && Replays(r.changes, s.liveCells, r.state.liveCells)
  {
    ChangesReplay(s.liveCells, s.gridSizeX, s.gridSizeY, requests);
  }

  /** Before `init` the sizes are 0, so `setCells` changes and reports nothing. */
  lemma SetCellsBeforeInitIgnored(requests: seq<CellRequest>)
    ensures HandleMessage(InitialState(), SetCells(Some(requests))) == Reaction(InitialState(), [])
  {
    NothingAcceptedOnEmptyGrid(Edit({}, []), 0, 0, requests);
  }

  // ---- ticks ----

  /** A tick before the sizes are set only stops the loop. */
  lemma TickBeforeInitStops(s: WorkerState)
    requires s.gridSizeX == 0 || s.gridSizeY == 0
    ensures TickState(s) == s.(simulationRunning := false)
  {
  }

  /** A tick on a sized grid advances the counter by one and applies Conway's rule. */
  lemma TickAdvances(s: WorkerState)
    requires s.gridSizeX != 0 && s.gridSizeY != 0
    ensures TickState(s).generationCount == s.generationCount + 1
    ensures TickState(s).simulationRunning == s.simulationRunning
    ensures forall c :: c in TickState(s).liveCells <==> WillBeAlive(c in s.liveCells, NeighbourCount(s.liveCells, c, s.gridSizeX, s.gridSizeY))
  {
    forall c
      ensures c in TickState(s).liveCells <==> WillBeAlive(c in s.liveCells, NeighbourCount(s.liveCells, c, s.gridSizeX, s.gridSizeY))
    {
      NextGenerationRule(s.liveCells, c, s.gridSizeX, s.gridSizeY);
    }
  }

  /** A worker started before `init` runs no generation: its first tick stops it again. */
  lemma StartBeforeInitRunsNothing()
    ensures var started := HandleMessage(InitialState(), Start).state;
      && started.simulationRunning
      && TickState(started) == InitialState()
  {
  }

  /** The live set stays on the grid through every message except an `init` whose array is
      larger than the configured grid. */
  lemma {:induction false} CellsStayOnGrid(s: WorkerState, msg: Message)
    requires CellsOnGrid(s)
    requires msg.Init? && msg.config.Some? && msg.initialGameState.Some? && msg.initialGameState.value.Rows? ==>
      RowsFit(msg.initialGameState.value.rows, msg.config.value.gridSizeX, msg.config.value.gridSizeY)
    ensures CellsOnGrid(HandleMessage(s, msg).state)
  {
    match msg
    case Init(config, state) =>
      if config.Some? && state.Some? && state.value.Rows? {
        InitOnGridIffRowsFit(s, config.value, state.value.rows);
      }
    case SetCells(cells) =>
      if cells.Some? {
        ApplyFromStaysInGrid(Edit(s.liveCells, []), s.gridSizeX, s.gridSizeY, cells.value);
      }
    case _ =>
  }

  /** The live set stays on the grid through a tick of the simulation loop. */
  lemma TickStaysOnGrid(s: WorkerState)
    requires CellsOnGrid(s)
    ensures CellsOnGrid(TickState(s))
  {
    if s.gridSizeX > 0 && s.gridSizeY > 0 {
      NextGenerationWithinGrid(s.liveCells, s.gridSizeX, s.gridSizeY);
    } else if s.gridSizeX != 0 && s.gridSizeY != 0 {
      assert s.liveCells == {};
      assert Contributions({}) == {};
      assert RelevantCells({}, s.gridSizeX, s.gridSizeY) == {};
    }
  }
}
