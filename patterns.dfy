/** The main thread's pattern bookkeeping (script.js): the grid dimensions of `GameConfig`,
    the `PatternManager` that translates and cycles patterns, and the wrapped cells that
    `placeSpamPattern` sends to the worker. */
module Patterns {
  import opened Common
  import opened JsArith
  import opened CellEdits

  const TargetWidth: int := 8000
  const TargetHeight: int := 2800
  const CellSize: int := 5

  /** `GAME_SPEED`, the tick interval in milliseconds sent with `init`. */
  const GameSpeed: int := 100

  /** `Math.floor(TARGET_WIDTH / CELL_SIZE)`, 1600; both operands are positive, so Dafny's
      division is the floor. */
  const GridSizeX: int := TargetWidth / CellSize

  /** `Math.floor(TARGET_HEIGHT / CELL_SIZE)`, 560. */
  const GridSizeY: int := TargetHeight / CellSize

  /** The names `PatternManager` cycles through, in order. */
  const PatternCycleList: seq<string> := ["glider", "lwss", "pulsar", "gosperGliderGun", "rPentomino", "acorn"]

  // ---- addPattern ----

  /** `addPattern`: every coordinate moved by `(offsetX, offsetY)`. */
  function AddPattern(coords: seq<Point>, offsetX: int, offsetY: int): (r: seq<Point>)
    ensures |r| == |coords|
    ensures forall i | 0 <= i < |coords| :: r[i] == Point(coords[i].x + offsetX, coords[i].y + offsetY)
  {
    if coords == [] then []
    else
      var p := coords[|coords| - 1];
      AddPattern(coords[..|coords| - 1], offsetX, offsetY) + [Point(p.x + offsetX, p.y + offsetY)]
  }

  /** Moving by an offset and back gives the pattern back. */
  lemma AddPatternInverse(coords: seq<Point>, offsetX: int, offsetY: int)
    ensures AddPattern(AddPattern(coords, offsetX, offsetY), -offsetX, -offsetY) == coords
  {
    var back := AddPattern(AddPattern(coords, offsetX, offsetY), -offsetX, -offsetY);
    assert forall i | 0 <= i < |coords| :: back[i] == coords[i];
  }

  /** Two moves are one move by the summed offset. */
  lemma AddPatternCompose(coords: seq<Point>, dx1: int, dy1: int, dx2: int, dy2: int)
    ensures AddPattern(AddPattern(coords, dx1, dy1), dx2, dy2) == AddPattern(coords, dx1 + dx2, dy1 + dy2)
  {
    var twice := AddPattern(AddPattern(coords, dx1, dy1), dx2, dy2);
    var once := AddPattern(coords, dx1 + dx2, dy1 + dy2);
    assert forall i | 0 <= i < |coords| :: twice[i] == once[i];
  }

  // ---- cycleToNextPattern ----

  /** `(currentPatternIndex + 1) % patternCycleList.length`. */
  function NextIndex(i: int, n: int): (r: int)
    requires 0 <= i < n
    ensures 0 <= r < n
    ensures r == if i == n - 1 then 0 else i + 1
  {
    if i == n - 1 then ResidueUnique(i + 1, 1, 0, n); JsRem(i + 1, n)
    else ResidueUnique(i + 1, 0, i + 1, n); JsRem(i + 1, n)
  }

  /** The index after `k` calls of `cycleToNextPattern`. */
  function Cycled(i: int, n: int, k: nat): (r: int)
    requires 0 <= i < n
    ensures 0 <= r < n
  {
    if k == 0 then i else NextIndex(Cycled(i, n, k - 1), n)
  }

  /** `k` cycles move the index `k` places round the list ... */
  lemma {:induction false} CycledIsResidue(i: int, n: int, k: nat)
    requires 0 <= i < n
    ensures Cycled(i, n, k) == (i + k) % n
  {
    if k > 0 {
      CycledIsResidue(i, n, k - 1);
      var j := Cycled(i, n, k - 1);
      ResidueShift(i + k - 1, 1, n);
      if j == n - 1 {
        ResidueUnique(j + 1, 1, 0, n);
      } else {
        ResidueUnique(j + 1, 0, j + 1, n);
      }
    }
  }

  /** ... so a full round of `n` cycles comes back to the starting pattern. */
  lemma FullCycleReturns(i: int, n: int)
    requires 0 <= i < n
    ensures Cycled(i, n, n) == i
  {
    CycledIsResidue(i, n, n);
    ResidueUnique(i + n, 1, i, n);
  }

  class PatternManager {
    var patterns: map<string, seq<Point>>
    var patternCycleList: seq<string>
    var currentPatternIndex: int

    /** The index always names an entry of the cycle list. */
    predicate Valid()
      reads this
    {
      0 <= currentPatternIndex < |patternCycleList|
    }

    /** The pattern table is given by the caller; the cycle list and the starting index are
        the ones the constructor sets. */
    constructor(patterns: map<string, seq<Point>>)
      ensures this.patterns == patterns
      ensures patternCycleList == PatternCycleList && currentPatternIndex == 0
      ensures Valid() && GetCurrentPatternName() == "glider"
    {
      this.patterns := patterns;
      patternCycleList := PatternCycleList;
      currentPatternIndex := 0;
    }

    /** `getCurrentPatternName`. */
    function GetCurrentPatternName(): (name: string)
      reads this
      requires Valid()
      ensures name in patternCycleList
    {
      patternCycleList[currentPatternIndex]
    }

    /** `getCurrentPattern`: the table entry for the current name, or `undefined` (`None`)
        when the table has none. */
    function GetCurrentPattern(): (r: Option<seq<Point>>)
      reads this
      requires Valid()
      ensures r.Some? <==> GetCurrentPatternName() in patterns
      ensures r.Some? ==> r.value == patterns[GetCurrentPatternName()]
    {
      var name := patternCycleList[currentPatternIndex];
      if name in patterns then Some(patterns[name]) else None
    }

    /** `cycleToNextPattern`: the index moves one place round the list, wrapping from the last
        entry to the first; nothing else changes. */
    method CycleToNextPattern()
      requires Valid()
      modifies this
      ensures patterns == old(patterns) && patternCycleList == old(patternCycleList)
      ensures Valid()
      ensures currentPatternIndex == NextIndex(old(currentPatternIndex), |patternCycleList|)
    {
      currentPatternIndex := NextIndex(currentPatternIndex, |patternCycleList|);
    }
  }

  // ---- placeSpamPattern ----

  /** A coordinate that the single wrap `(n + size) % size` brings into `[0, size)`. */
  predicate OnTorus(n: int, size: int)
    requires size > 0
  {
    n >= -size || n % size == 0
  }

  /** The position `((x + GRID_SIZE_X) % GRID_SIZE_X, (y + GRID_SIZE_Y) % GRID_SIZE_Y)` that the
      main thread computes for a pattern cell, both when it stamps a pattern and when it builds
      the initial grid. */
  function GridWrap(x: int, y: int): Cell
  {
    Cell(ShiftWrap(x, GridSizeX), ShiftWrap(y, GridSizeY))
  }

  /** The request `placeSpamPattern` makes for one pattern cell, with the pointer over the grid
      cell `(gridX, gridY)`. */
  function SpamCell(gridX: int, gridY: int, p: Point): CellRequest
  {
    var c := GridWrap(gridX + p.x, gridY + p.y);
    Request(c.x, c.y, true)
  }

  /** `pattern.map(...)` in `placeSpamPattern`: one request per pattern cell, in order. */
  function SpamCells(gridX: int, gridY: int, pattern: seq<Point>): (r: seq<CellRequest>)
    ensures |r| == |pattern|
    ensures forall i | 0 <= i < |pattern| :: r[i] == SpamCell(gridX, gridY, pattern[i])
  {
    if pattern == [] then []
    else SpamCells(gridX, gridY, pattern[..|pattern| - 1]) + [SpamCell(gridX, gridY, pattern[|pattern| - 1])]
  }

  /** `placeSpamPattern`: no message when there is no current pattern, otherwise the batch. */
  function PlaceSpamPattern(gridX: int, gridY: int, pattern: Option<seq<Point>>): Option<seq<CellRequest>>
  {
    if pattern.None? then None else Some(SpamCells(gridX, gridY, pattern.value))
  }

  /** A spam request passes the worker's bounds check on the configured grid exactly when
      both coordinates are on the torus, and then it names the toroidal position of the cell. */
  lemma SpamCellOnGrid(gridX: int, gridY: int, p: Point)
    ensures Accepted(SpamCell(gridX, gridY, p), GridSizeX, GridSizeY) <==>
      OnTorus(gridX + p.x, GridSizeX) && OnTorus(gridY + p.y, GridSizeY)
    ensures Accepted(SpamCell(gridX, gridY, p), GridSizeX, GridSizeY) ==>
      CellOfRequest(SpamCell(gridX, gridY, p)) == Cell((gridX + p.x) % GridSizeX, (gridY + p.y) % GridSizeY)
  {
    ShiftWrapResidue(gridX + p.x, GridSizeX);
    ShiftWrapResidue(gridY + p.y, GridSizeY);
  }

  /** The cells of a spam batch that land on the grid. */
  function SpamTargets(gridX: int, gridY: int, pattern: seq<Point>): set<Cell>
  {
    set p | p in pattern && OnTorus(gridX + p.x, GridSizeX) && OnTorus(gridY + p.y, GridSizeY) ::
      Cell((gridX + p.x) % GridSizeX, (gridY + p.y) % GridSizeY)
  }

  /** The cells that the accepted requests of a batch name. */
  function AcceptedCells(requests: seq<CellRequest>, sizeX: int, sizeY: int): set<Cell>
  {
    set i | 0 <= i < |requests| && Accepted(requests[i], sizeX, sizeY) :: CellOfRequest(requests[i])
  }

  /** A batch whose requests all ask for live cells adds exactly the cells it names on the grid. */
  lemma {:induction false} AllAliveBatch(e: Edit, requests: seq<CellRequest>, sizeX: int, sizeY: int)
    requires forall i | 0 <= i < |requests| :: requests[i].Request? ==> requests[i].alive
    ensures ApplyFrom(e, requests, sizeX, sizeY).liveCells == e.liveCells + AcceptedCells(requests, sizeX, sizeY)
  {
    if requests != [] {
      var n := |requests| - 1;
      var prefix := requests[..n];
      assert forall i | 0 <= i < |prefix| :: prefix[i] == requests[i];
      AllAliveBatch(e, prefix, sizeX, sizeY);
      assert AcceptedCells(requests, sizeX, sizeY) ==
        AcceptedCells(prefix, sizeX, sizeY) + (if Accepted(requests[n], sizeX, sizeY) then {CellOfRequest(requests[n])} else {});
    }
  }

  /** `placeSpamPattern` sends nothing when there is no current pattern. Otherwise the batch,
      processed by the worker on the configured grid, adds the toroidal positions of the
      pattern's cells that are on the torus, and removes nothing. */
  lemma SpamPlacesPattern(liveCells: set<Cell>, gridX: int, gridY: int, pattern: Option<seq<Point>>)
    ensures PlaceSpamPattern(gridX, gridY, pattern).None? <==> pattern.None?
    ensures pattern.Some? ==>
      ApplyRequests(liveCells, GridSizeX, GridSizeY, PlaceSpamPattern(gridX, gridY, pattern).value).liveCells ==
      liveCells + SpamTargets(gridX, gridY, pattern.value)
  {
    if pattern.Some? {
      AllAliveBatch(Edit(liveCells, []), SpamCells(gridX, gridY, pattern.value), GridSizeX, GridSizeY);
      SpamAcceptedCells(gridX, gridY, pattern.value);
    }
  }

  /** The cells a spam batch names on the grid are its targets. */
  lemma SpamAcceptedCells(gridX: int, gridY: int, pattern: seq<Point>)
    ensures AcceptedCells(SpamCells(gridX, gridY, pattern), GridSizeX, GridSizeY) == SpamTargets(gridX, gridY, pattern)
  {
    var requests := SpamCells(gridX, gridY, pattern);
    forall c | c in AcceptedCells(requests, GridSizeX, GridSizeY)
      ensures c in SpamTargets(gridX, gridY, pattern)
    {
      var i :| 0 <= i < |requests| && Accepted(requests[i], GridSizeX, GridSizeY) && CellOfRequest(requests[i]) == c;
      SpamCellIsTarget(gridX, gridY, pattern, i);
    }
    forall c | c in SpamTargets(gridX, gridY, pattern)
      ensures c in AcceptedCells(requests, GridSizeX, GridSizeY)
    {
      var p :| p in pattern && OnTorus(gridX + p.x, GridSizeX) && OnTorus(gridY + p.y, GridSizeY) &&
        c == Cell((gridX + p.x) % GridSizeX, (gridY + p.y) % GridSizeY);
      TargetIsSpamCell(gridX, gridY, pattern, p);
    }
  }

  lemma SpamCellIsTarget(gridX: int, gridY: int, pattern: seq<Point>, i: int)
    requires 0 <= i < |pattern| && Accepted(SpamCell(gridX, gridY, pattern[i]), GridSizeX, GridSizeY)
    ensures CellOfRequest(SpamCell(gridX, gridY, pattern[i])) in SpamTargets(gridX, gridY, pattern)
  {
    var p := pattern[i];
    SpamCellOnGrid(gridX, gridY, p);
    assert p in pattern && OnTorus(gridX + p.x, GridSizeX) && OnTorus(gridY + p.y, GridSizeY);
  }

  lemma TargetIsSpamCell(gridX: int, gridY: int, pattern: seq<Point>, p: Point)
    requires p in pattern && OnTorus(gridX + p.x, GridSizeX) && OnTorus(gridY + p.y, GridSizeY)
    ensures Cell((gridX + p.x) % GridSizeX, (gridY + p.y) % GridSizeY) in AcceptedCells(SpamCells(gridX, gridY, pattern), GridSizeX, GridSizeY)
  {
    var requests := SpamCells(gridX, gridY, pattern);
    var i :| 0 <= i < |pattern| && pattern[i] == p;
    SpamCellOnGrid(gridX, gridY, p);
    assert Accepted(requests[i], GridSizeX, GridSizeY);
  }

  /** A pointer far enough left of the grid (here 1601 cells) puts the cell off the torus:
      the single wrap leaves it negative and the worker drops it. */
  lemma FarLeftSpamDropped()
    ensures !Accepted(SpamCell(-GridSizeX - 1, 0, Point(0, 0)), GridSizeX, GridSizeY)
    ensures SpamTargets(-GridSizeX - 1, 0, [Point(0, 0)]) == {}
  {
    SpamCellOnGrid(-GridSizeX - 1, 0, Point(0, 0));
    ShiftWrapResidue(-GridSizeX - 1, GridSizeX);
  }
}
