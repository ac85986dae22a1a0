/** The worker script itself (worker.js): its module-level variables as the fields of one
    object, and its functions as methods that update them in place. Each method is proved to
    carry out the transition that `WorkerProtocol` describes. */
module Worker {
  import opened Common
  import opened ChangeLists
  import opened LifeRules
  import opened CellEdits
  import opened SparseStep
  import opened WorkerProtocol

  /** The cells the loops of `init` have added once they have finished the rows before `y`
      and the entries before `x` of row `y`. */
  function CellsScanned(rows: seq<Row>, y: int, x: int): set<Cell>
  {
    set yy, xx | 0 <= yy < |rows| && rows[yy].Entries? && 0 <= xx < |rows[yy].isTrue| && rows[yy].isTrue[xx]
                 && (yy < y || (yy == y && xx < x)) :: Cell(xx, yy)
  }

  class GameWorker {
    var liveCells: set<Cell>
    var gridSizeX: int
    var gridSizeY: int
    var simulationRunning: bool
    var gameSpeed: int
    var generationCount: int

    /** The fields as one value. */
    function State(): WorkerState
      reads this
    {
      WorkerState(liveCells, gridSizeX, gridSizeY, simulationRunning, gameSpeed, generationCount)
    }

    /** The script as loaded, before any message. */
    constructor()
      ensures State() == InitialState()
    {
      liveCells := {};
      gridSizeX := 0;
      gridSizeY := 0;
      simulationRunning := false;
      gameSpeed := 100;
      generationCount := 0;
    }

    method StartGameLoop()
      modifies this
      ensures State() == StartLoop(old(State()))
    {
      if !simulationRunning {
        simulationRunning := true;
        generationCount := 0;
      }
    }

    method StopGameLoop()
      modifies this
      ensures State() == StopLoop(old(State()))
    {
      if simulationRunning {
        simulationRunning := false;
      }
    }

    /** One timer tick. The returned changes are posted as a `stateChanges` message when
        there are any. */
    method UpdateGameStateSparse() returns (changes: seq<Change>)
      modifies this
      ensures State() == TickState(old(State()))
      ensures IsDiff(changes, old(liveCells), liveCells)
    {
      if gridSizeX == 0 || gridSizeY == 0 {
        StopGameLoop();
        return [];
      }
      var nextLiveCells;
      nextLiveCells, changes := ComputeNextGeneration(liveCells, gridSizeX, gridSizeY);
      liveCells := nextLiveCells;
      generationCount := generationCount + 1;
    }

    /** `self.onmessage`. The returned changes are posted as a `stateChanges` message when
        there are any. */
    method OnMessage(data: Message) returns (posted: seq<Change>)
      modifies this
      ensures Reaction(State(), posted) == HandleMessage(old(State()), data)
    {
      posted := [];
      match data
      case NotAnObject =>
      case Init(config, initialGameState) =>
        if config.None? || initialGameState.None? {
          return;
        }
        StopGameLoop();
        gridSizeX := config.value.gridSizeX;
        gridSizeY := config.value.gridSizeY;
        gameSpeed := config.value.gameSpeed;
        liveCells := {};
        if initialGameState.value.NotAnArray? {
          return;
        }
        LoadRows(initialGameState.value.rows);
      case Start =>
        StartGameLoop();
      case Stop =>
        StopGameLoop();
      case SetCells(cells) =>
        if cells.Some? {
          posted := SetCells(cells.value);
        }
      case UpdateSpeed(speed) =>
        if speed.Some? && speed.value > 0 {
          gameSpeed := speed.value;
          if simulationRunning {
            StopGameLoop();
            StartGameLoop();
          }
        }
      case UnknownType =>
    }

    /** The nested loops of `init` that add a key for every entry that is exactly `true`. */
    method LoadRows(initialGameStateArray: seq<Row>)
      requires liveCells == {}
      modifies this
      ensures State() == old(State()).(liveCells := GridCells(initialGameStateArray))
    {
      var y := 0;
      while y < |initialGameStateArray|
        invariant 0 <= y <= |initialGameStateArray|
        invariant State() == old(State()).(liveCells := liveCells)
        invariant liveCells == CellsScanned(initialGameStateArray, y, 0)
      {
        if initialGameStateArray[y].Entries? {
          var row := initialGameStateArray[y].isTrue;
          var x := 0;
          while x < |row|
            invariant 0 <= x <= |row|
            invariant State() == old(State()).(liveCells := liveCells)
            invariant liveCells == CellsScanned(initialGameStateArray, y, x)
          {
            if row[x] {
              liveCells := liveCells + {Cell(x, y)};
            }
            assert CellsScanned(initialGameStateArray, y, x + 1) ==
              CellsScanned(initialGameStateArray, y, x) + (if row[x] then {Cell(x, y)} else {});
            x := x + 1;
          }
          assert CellsScanned(initialGameStateArray, y + 1, 0) == CellsScanned(initialGameStateArray, y, x);
        } else {
          assert CellsScanned(initialGameStateArray, y + 1, 0) == CellsScanned(initialGameStateArray, y, 0);
        }
        y := y + 1;
      }
      assert CellsScanned(initialGameStateArray, y, 0) == GridCells(initialGameStateArray);
    }

    /** The `forEach` of `setCells`, adding to and deleting from the live set in place and
        collecting the requests that changed it. */
    method SetCells(cells: seq<CellRequest>) returns (cellsThatActuallyChanged: seq<Change>)
      modifies this
      ensures Edit(liveCells, cellsThatActuallyChanged) == ApplyRequests(old(liveCells), gridSizeX, gridSizeY, cells)
      ensures State() == old(State()).(liveCells := liveCells)
    {
      cellsThatActuallyChanged := [];
      var i := 0;
      while i < |cells|
        invariant 0 <= i <= |cells|
        invariant State() == old(State()).(liveCells := liveCells)
        invariant Edit(liveCells, cellsThatActuallyChanged) == ApplyRequests(old(liveCells), gridSizeX, gridSizeY, cells[..i])
      {
        var cell := cells[i];
        if cell.Request? {
          if cell.y >= 0 && cell.y < gridSizeY && cell.x >= 0 && cell.x < gridSizeX {
            var key := Cell(cell.x, cell.y);
            var currentlyAlive := key in liveCells;
            var stateChanged := false;
            if cell.alive && !currentlyAlive {
              liveCells := liveCells + {key};
              stateChanged := true;
            } else if !cell.alive && currentlyAlive {
              liveCells := liveCells - {key};
              stateChanged := true;
            }
            if stateChanged {
              cellsThatActuallyChanged := cellsThatActuallyChanged + [Change(cell.x, cell.y, cell.alive)];
            }
          }
        }
        assert cells[..i + 1][..i] == cells[..i];
        i := i + 1;
      }
      assert cells[..i] == cells;
    }
  }
}
