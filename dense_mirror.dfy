/** The main thread's dense copy of the grid (script.js, `GameController.initializeWorker`):
    the boolean array built from the initial pattern and sent with `init`, and the handler that
    applies each `stateChanges` message to it. Together with the worker they keep the array an
    exact image of the worker's live set. */
module DenseMirror {
  import opened Common
  import opened JsArith
  import opened ChangeLists
  import opened LifeRules
  import opened CellEdits
  import opened WorkerProtocol
  import opened Worker
  import opened Patterns

  /** The array shows exactly the cells of `liveCells` that lie within its bounds. */
  ghost predicate Mirrors(grid: array2<bool>, liveCells: set<Cell>)
    reads grid
  {
    forall y, x | 0 <= y < grid.Length0 && 0 <= x < grid.Length1 :: grid[y, x] == (Cell(x, y) in liveCells)
  }

  // ---- The initial state ----

  /** The wrapped position is an element of the array: the row exists (`initialState[wrappedY]`
      is truthy) and the column is not negative. */
  predicate Placed(p: Point)
  {
    0 <= GridWrap(p.x, p.y).x && 0 <= GridWrap(p.x, p.y).y
  }

  /** The cells the `forEach` over the initial pattern sets to `true`. */
  function PlacedCells(pattern: seq<Point>): set<Cell>
  {
    if pattern == [] then {}
    else
      var p := pattern[|pattern| - 1];
      PlacedCells(pattern[..|pattern| - 1]) + (if Placed(p) then {GridWrap(p.x, p.y)} else {})
  }

  /** The toroidal image of a pattern: the residue of every cell whose coordinates are on the
      torus (not more than one grid size below 0, or a multiple of it). */
  function TorusImage(pattern: seq<Point>): set<Cell>
  {
    set p | p in pattern && OnTorus(p.x, GridSizeX) && OnTorus(p.y, GridSizeY) :: Cell(p.x % GridSizeX, p.y % GridSizeY)
  }

  lemma PlacedPoint(p: Point)
    ensures Placed(p) <==> OnTorus(p.x, GridSizeX) && OnTorus(p.y, GridSizeY)
    ensures Placed(p) ==> GridWrap(p.x, p.y) == Cell(p.x % GridSizeX, p.y % GridSizeY)
  {
    ShiftWrapResidue(p.x, GridSizeX);
    ShiftWrapResidue(p.y, GridSizeY);
  }

  /** The grid built from a pattern is `true` exactly at the toroidal image of the pattern,
      which lies on the grid. */
  lemma {:induction false} PlacedCellsAreTorusImage(pattern: seq<Point>)
    ensures PlacedCells(pattern) == TorusImage(pattern)
    ensures WithinGrid(PlacedCells(pattern), GridSizeX, GridSizeY)
  {
    if pattern != [] {
      var n := |pattern| - 1;
      var p := pattern[n];
      var prefix := pattern[..n];
      PlacedCellsAreTorusImage(prefix);
      PlacedPoint(p);
      assert pattern == prefix + [p];
      assert TorusImage(pattern) == TorusImage(prefix) + (if Placed(p) then {GridWrap(p.x, p.y)} else {});
    }
  }

  /** `initialState`: a `GRID_SIZE_Y` by `GRID_SIZE_X` array of `false`, with `true` written at
      the wrapped position of every pattern cell whose position is an element. */
  method BuildInitialState(initialPattern: seq<Point>) returns (initialState: array2<bool>)
    ensures fresh(initialState)
    ensures initialState.Length0 == GridSizeY && initialState.Length1 == GridSizeX
    ensures Mirrors(initialState, PlacedCells(initialPattern))
  {
    initialState := new bool[GridSizeY, GridSizeX]((_, _) => false);
    var i := 0;
    while i < |initialPattern|
      invariant 0 <= i <= |initialPattern|
      invariant Mirrors(initialState, PlacedCells(initialPattern[..i]))
    {
      var p := initialPattern[i];
      var wrappedX := JsRem(p.x + GridSizeX, GridSizeX);
      var wrappedY := JsRem(p.y + GridSizeY, GridSizeY);
      assert initialPattern[..i + 1][..i] == initialPattern[..i];
      if 0 <= wrappedY {
        // A negative column makes the JavaScript assignment create a property, not an element.
        if 0 <= wrappedX {
          initialState[wrappedY, wrappedX] := true;
        }
      }
      i := i + 1;
    }
    assert initialPattern[..|initialPattern|] == initialPattern;
  }

  /** What the worker receives in `init`: a structured clone of the array, as rows. */
  function Snapshot(grid: array2<bool>): (rows: seq<Row>)
    reads grid
    ensures |rows| == grid.Length0
    ensures forall y | 0 <= y < |rows| :: rows[y].Entries? && |rows[y].isTrue| == grid.Length1
    ensures forall y, x | 0 <= y < |rows| && 0 <= x < grid.Length1 :: rows[y].isTrue[x] == grid[y, x]
  {
    seq(grid.Length0, y reads grid =>
      Entries(seq(grid.Length1, x reads grid =>
        if 0 <= y < grid.Length0 && 0 <= x < grid.Length1 then grid[y, x] else false)))
  }

  /** The worker's `init` loops read back from a mirror exactly the live cells it shows. */
  lemma SnapshotCells(grid: array2<bool>, liveCells: set<Cell>)
    requires Mirrors(grid, liveCells) && WithinGrid(liveCells, grid.Length1, grid.Length0)
    ensures GridCells(Snapshot(grid)) == liveCells
  {
    var rows := Snapshot(grid);
    forall c | c in liveCells
      ensures c in GridCells(rows)
    {
      assert rows[c.y].isTrue[c.x];
    }
  }

  /** `initializeWorker`: start a new worker, build the array, keep it as the drawing state and
      send it to the worker with the configured grid size and speed. The worker then holds the
      toroidal image of the pattern on the configured grid, stopped, at generation 0, and the
      array mirrors it. */
  method InitializeWorker(initialPattern: seq<Point>) returns (worker: GameWorker, grid: array2<bool>)
    ensures fresh(worker) && fresh(grid)
    ensures grid.Length0 == GridSizeY && grid.Length1 == GridSizeX
    ensures worker.State() == HandleMessage(InitialState(), Init(Some(Config(GridSizeX, GridSizeY, GameSpeed)), Some(Rows(Snapshot(grid))))).state
    ensures worker.State() == WorkerState(TorusImage(initialPattern), GridSizeX, GridSizeY, false, GameSpeed, 0)
    ensures Mirrors(grid, worker.liveCells)
  {
    worker := new GameWorker();
    grid := BuildInitialState(initialPattern);
    PlacedCellsAreTorusImage(initialPattern);
    SnapshotCells(grid, PlacedCells(initialPattern));
    var posted := worker.OnMessage(Init(Some(Config(GridSizeX, GridSizeY, GameSpeed)), Some(Rows(Snapshot(grid)))));
  }

  // ---- stateChanges ----

  /** The `stateChanges` handler: every change whose row exists sets its entry; every other
      entry keeps its value, so each entry ends with the last change to it. */
  method ApplyStateChanges(grid: array2<bool>, changes: seq<Change>)
    modifies grid
    ensures forall y, x | 0 <= y < grid.Length0 && 0 <= x < grid.Length1 ::
      grid[y, x] == LastWrite(changes, Cell(x, y), old(grid[y, x]))
  {
    var i := 0;
    while i < |changes|
      invariant 0 <= i <= |changes|
      invariant forall y, x | 0 <= y < grid.Length0 && 0 <= x < grid.Length1 ::
        grid[y, x] == LastWrite(changes[..i], Cell(x, y), old(grid[y, x]))
    {
      var change := changes[i];
      assert changes[..i + 1][..i] == changes[..i];
      if 0 <= change.y < grid.Length0 && 0 <= change.x < grid.Length1 {
        grid[change.y, change.x] := change.alive;
      }
      i := i + 1;
    }
    assert changes[..|changes|] == changes;
  }

  /** Applying a change log that replays the old live set into the new one turns a mirror of
      the old set into a mirror of the new one. */
  method ApplyReplayingChanges(grid: array2<bool>, changes: seq<Change>, ghost before: set<Cell>, ghost after: set<Cell>)
    requires Mirrors(grid, before) && Replays(changes, before, after)
    modifies grid
    ensures Mirrors(grid, after)
  {
    ApplyStateChanges(grid, changes);
    forall y, x | 0 <= y < grid.Length0 && 0 <= x < grid.Length1
      ensures grid[y, x] == (Cell(x, y) in after)
    {
      assert old(grid[y, x]) == (Cell(x, y) in before);
    }
  }

  /** Every message other than `init` posts a log that replays the worker's old live set into
      its new one: `setCells` its accepted flips, the others nothing while the set stays. */
  lemma MessageChangesReplay(s: WorkerState, msg: Message)
    requires !msg.Init?
    ensures Replays(HandleMessage(s, msg).changes, s.liveCells, HandleMessage(s, msg).state.liveCells)
  {
    if msg.SetCells? && msg.cells.Some? {
      ChangesReplay(s.liveCells, s.gridSizeX, s.gridSizeY, msg.cells.value);
    }
  }

  /** One tick of the worker, its `stateChanges` posted and applied: the array still mirrors
      the worker, now at the next generation. */
  method TickAndRedraw(worker: GameWorker, grid: array2<bool>)
    requires Mirrors(grid, worker.liveCells)
    modifies worker, grid
    ensures worker.State() == TickState(old(worker.State()))
    ensures Mirrors(grid, worker.liveCells)
  {
    var changes := worker.UpdateGameStateSparse();
    DiffReplays(changes, old(worker.liveCells), worker.liveCells);
    ApplyReplayingChanges(grid, changes, old(worker.liveCells), worker.liveCells);
  }

  /** Any message other than `init` handled by the worker, its changes applied: the mirror is
      kept. */
  method MessageAndRedraw(worker: GameWorker, grid: array2<bool>, data: Message)
    requires !data.Init? && Mirrors(grid, worker.liveCells)
    modifies worker, grid
    ensures worker.State() == HandleMessage(old(worker.State()), data).state
    ensures Mirrors(grid, worker.liveCells)
  {
    var posted := worker.OnMessage(data);
    MessageChangesReplay(old(worker.State()), data);
    ApplyReplayingChanges(grid, posted, old(worker.liveCells), worker.liveCells);
  }
}
