/** What one generation step of the sparse engine computes (worker.js, `updateGameStateSparse`),
    stated over sets: the neighbour counts gathered around live cells on the torus, the
    "relevant" cells, and the B3/S23 rule applied to them. */
module LifeRules {
  import opened Common
  import opened JsArith
  import opened ChangeLists

  predicate IsOffset(dx: int, dy: int)
  {
    -1 <= dx <= 1 && -1 <= dy <= 1 && !(dx == 0 && dy == 0)
  }

  /** The eight neighbour offsets. */
  function Offsets(): set<(int, int)>
  {
    set dx, dy | -1 <= dx <= 1 && -1 <= dy <= 1 && IsOffset(dx, dy) :: (dx, dy)
  }

  predicate InGrid(c: Cell, sizeX: int, sizeY: int)
  {
    0 <= c.x < sizeX && 0 <= c.y < sizeY
  }

  predicate WithinGrid(live: set<Cell>, sizeX: int, sizeY: int)
  {
    forall c | c in live :: InGrid(c, sizeX, sizeY)
  }

  /** The cell at `(x, y)` wrapped onto the torus with JavaScript's `(n % size + size) % size`. */
  function WrapCell(x: int, y: int, sizeX: int, sizeY: int): Cell
    requires sizeX != 0 && sizeY != 0
  {
    Cell(Wrap(x, sizeX), Wrap(y, sizeY))
  }

  /** One increment of a neighbour count: live cell `source` seen through offset `(dx, dy)`. */
  datatype Contribution = Contribution(source: Cell, dx: int, dy: int)

  /** The neighbour whose count a contribution increments. */
  function Target(t: Contribution, sizeX: int, sizeY: int): Cell
    requires sizeX != 0 && sizeY != 0
  {
    WrapCell(t.source.x + t.dx, t.source.y + t.dy, sizeX, sizeY)
  }

  /** Every (live cell, offset) pair the counting loop visits. */
  function Contributions(live: set<Cell>): set<Contribution>
  {
    set c, dx, dy | c in live && -1 <= dx <= 1 && -1 <= dy <= 1 && IsOffset(dx, dy) :: Contribution(c, dx, dy)
  }

  function ContributionsTo(ts: set<Contribution>, k: Cell, sizeX: int, sizeY: int): set<Contribution>
    requires sizeX != 0 && sizeY != 0
  {
    set t | t in ts && Target(t, sizeX, sizeY) == k
  }

  function Targets(ts: set<Contribution>, sizeX: int, sizeY: int): set<Cell>
    requires sizeX != 0 && sizeY != 0
  {
    set t | t in ts :: Target(t, sizeX, sizeY)
  }

  /** The value `neighborCounts.get(key) || 0` holds for `k` once all live cells are visited. */
  function NeighbourCount(live: set<Cell>, k: Cell, sizeX: int, sizeY: int): nat
    requires sizeX != 0 && sizeY != 0
  {
    |ContributionsTo(Contributions(live), k, sizeX, sizeY)|
  }

  /** `relevantCells`: the live cells and every wrapped neighbour of one. */
  function RelevantCells(live: set<Cell>, sizeX: int, sizeY: int): set<Cell>
    requires sizeX != 0 && sizeY != 0
  {
    live + Targets(Contributions(live), sizeX, sizeY)
  }

  /** B3/S23: a live cell survives with 2 or 3 neighbours, a dead one is born with exactly 3. */
  predicate WillBeAlive(alive: bool, count: int)
  {
    (alive && (count == 2 || count == 3)) || (!alive && count == 3)
  }

  /** `nextLiveCells`: the relevant cells the rule keeps or makes alive. */
  function NextGeneration(live: set<Cell>, sizeX: int, sizeY: int): set<Cell>
    requires sizeX != 0 && sizeY != 0
  {
    set k | k in RelevantCells(live, sizeX, sizeY) && WillBeAlive(k in live, NeighbourCount(live, k, sizeX, sizeY))
  }

  /** A cell that is neither live nor a neighbour of a live cell has no neighbours,
      so skipping it loses no birth. */
  lemma OutsideRelevantIsQuiet(live: set<Cell>, k: Cell, sizeX: int, sizeY: int)
    requires sizeX != 0 && sizeY != 0
    requires k !in RelevantCells(live, sizeX, sizeY)
    ensures k !in live && NeighbourCount(live, k, sizeX, sizeY) == 0
  {
    assert ContributionsTo(Contributions(live), k, sizeX, sizeY) == {};
  }

  /** The rule holds of every cell, not only of the relevant ones the loop visits. */
  lemma NextGenerationRule(live: set<Cell>, k: Cell, sizeX: int, sizeY: int)
    requires sizeX != 0 && sizeY != 0
    ensures k in NextGeneration(live, sizeX, sizeY) <==> WillBeAlive(k in live, NeighbourCount(live, k, sizeX, sizeY))
  {
    if k !in RelevantCells(live, sizeX, sizeY) {
      OutsideRelevantIsQuiet(live, k, sizeX, sizeY);
    }
  }

  /** On a positive grid every wrapped target lies inside the grid, so a cell outside it
      (one that `init` let in) has no neighbours and dies: the next generation lies in the grid. */
  lemma NextGenerationWithinGrid(live: set<Cell>, sizeX: int, sizeY: int)
    requires sizeX > 0 && sizeY > 0
    ensures WithinGrid(NextGeneration(live, sizeX, sizeY), sizeX, sizeY)
  {
    forall k | k in NextGeneration(live, sizeX, sizeY)
      ensures InGrid(k, sizeX, sizeY)
    {
      if !InGrid(k, sizeX, sizeY) {
        OutsideGridIsQuiet(live, k, sizeX, sizeY);
      }
    }
  }

  lemma TargetInGrid(t: Contribution, sizeX: int, sizeY: int)
    requires sizeX > 0 && sizeY > 0
    ensures InGrid(Target(t, sizeX, sizeY), sizeX, sizeY)
  {
    WrapIsResidue(t.source.x + t.dx, sizeX);
    WrapIsResidue(t.source.y + t.dy, sizeY);
  }

  lemma OutsideGridIsQuiet(live: set<Cell>, k: Cell, sizeX: int, sizeY: int)
    requires sizeX > 0 && sizeY > 0 && !InGrid(k, sizeX, sizeY)
    ensures NeighbourCount(live, k, sizeX, sizeY) == 0
  {
    var ts := ContributionsTo(Contributions(live), k, sizeX, sizeY);
    forall t | t in ts
      ensures InGrid(Target(t, sizeX, sizeY), sizeX, sizeY)
    {
      TargetInGrid(t, sizeX, sizeY);
    }
    assert ts == {};
  }

  /** The symmetric difference of two live sets inside the relevant domain is all of it. */
  lemma ChangesStayInRelevant(live: set<Cell>, sizeX: int, sizeY: int)
    requires sizeX != 0 && sizeY != 0
    ensures var next := NextGeneration(live, sizeX, sizeY);
      (set k | k in RelevantCells(live, sizeX, sizeY) && (k in live) != (k in next)) == (live - next) + (next - live)
  {
  }

  /** The live neighbours of `k` on the torus, counted by offset. */
  function LiveNeighbours(live: set<Cell>, k: Cell, sizeX: int, sizeY: int): nat
    requires sizeX != 0 && sizeY != 0
  {
    |LiveOffsets(live, k, sizeX, sizeY)|
  }

  function LiveOffsets(live: set<Cell>, k: Cell, sizeX: int, sizeY: int): set<(int, int)>
    requires sizeX != 0 && sizeY != 0
  {
    set d | d in Offsets() && WrapCell(k.x + d.0, k.y + d.1, sizeX, sizeY) in live
  }

  lemma OffsetsCount()
    ensures |Offsets()| == 8
  {
    assert Offsets() == {(-1, -1), (0, -1), (1, -1), (-1, 0), (1, 0), (-1, 1), (0, 1), (1, 1)};
  }

  /** A contribution from inside the grid is determined by its target and its offset. */
  lemma SourceOfContribution(t: Contribution, sizeX: int, sizeY: int)
    requires sizeX > 0 && sizeY > 0 && InGrid(t.source, sizeX, sizeY)
    ensures var k := Target(t, sizeX, sizeY);
      t.source == WrapCell(k.x - t.dx, k.y - t.dy, sizeX, sizeY)
  {
    WrapShift(t.source.x + t.dx, -t.dx, sizeX);
    WrapShift(t.source.y + t.dy, -t.dy, sizeY);
    WrapInRange(t.source.x, sizeX);
    WrapInRange(t.source.y, sizeY);
  }

  function ReversedOffsets(ts: set<Contribution>): set<(int, int)>
  {
    set t | t in ts :: (-t.dx, -t.dy)
  }

  lemma {:induction false} ReversedOffsetsCount(ts: set<Contribution>)
    requires forall t1, t2 | t1 in ts && t2 in ts && t1.dx == t2.dx && t1.dy == t2.dy :: t1 == t2
    ensures |ReversedOffsets(ts)| == |ts|
  {
    if ts != {} {
      var t :| t in ts;
      var rest := ts - {t};
      ReversedOffsetsCount(rest);
      ReversedOffsetsSplit(ts, t);
    }
  }

  lemma ReversedOffsetsSplit(ts: set<Contribution>, t: Contribution)
    requires t in ts
    requires forall t1, t2 | t1 in ts && t2 in ts && t1.dx == t2.dx && t1.dy == t2.dy :: t1 == t2
    ensures (-t.dx, -t.dy) !in ReversedOffsets(ts - {t})
    ensures ReversedOffsets(ts) == ReversedOffsets(ts - {t}) + {(-t.dx, -t.dy)}
  {
  }

  /** For a live set inside the grid, the count the loop accumulates for a grid cell is the
      number of its eight toroidal neighbours that are live; in particular it is at most 8. */
  lemma NeighbourCountIsToroidal(live: set<Cell>, k: Cell, sizeX: int, sizeY: int)
    requires sizeX > 0 && sizeY > 0
    requires WithinGrid(live, sizeX, sizeY) && InGrid(k, sizeX, sizeY)
    ensures NeighbourCount(live, k, sizeX, sizeY) == LiveNeighbours(live, k, sizeX, sizeY) <= 8
  {
    var ts := ContributionsTo(Contributions(live), k, sizeX, sizeY);
    ContributionsToAreDistinctByOffset(live, k, sizeX, sizeY);
    ReversedOffsetsCount(ts);
    ReversedOffsetsAreLive(live, k, sizeX, sizeY);
    LiveOffsetsAreReversed(live, k, sizeX, sizeY);
    var offsets := LiveOffsets(live, k, sizeX, sizeY);
    assert ReversedOffsets(ts) == offsets;
    LiveOffsetsAtMostEight(live, k, sizeX, sizeY);
  }

  lemma LiveOffsetsAtMostEight(live: set<Cell>, k: Cell, sizeX: int, sizeY: int)
    requires sizeX != 0 && sizeY != 0
    ensures |LiveOffsets(live, k, sizeX, sizeY)| <= 8
  {
    OffsetsCount();
    SubsetCard(LiveOffsets(live, k, sizeX, sizeY), Offsets());
  }

  lemma SubsetCard<T>(a: set<T>, b: set<T>)
    requires a <= b
    ensures |a| <= |b|
  {
    assert b == a + (b - a);
  }

  lemma ContributionsToAreDistinctByOffset(live: set<Cell>, k: Cell, sizeX: int, sizeY: int)
    requires sizeX > 0 && sizeY > 0 && WithinGrid(live, sizeX, sizeY)
    ensures var ts := ContributionsTo(Contributions(live), k, sizeX, sizeY);
      forall t1, t2 | t1 in ts && t2 in ts && t1.dx == t2.dx && t1.dy == t2.dy :: t1 == t2
  {
    var ts := ContributionsTo(Contributions(live), k, sizeX, sizeY);
    forall t1, t2 | t1 in ts && t2 in ts && t1.dx == t2.dx && t1.dy == t2.dy
      ensures t1 == t2
    {
      SourceOfContribution(t1, sizeX, sizeY);
      SourceOfContribution(t2, sizeX, sizeY);
    }
  }

  lemma ReversedOffsetsAreLive(live: set<Cell>, k: Cell, sizeX: int, sizeY: int)
    requires sizeX > 0 && sizeY > 0 && WithinGrid(live, sizeX, sizeY)
    ensures ReversedOffsets(ContributionsTo(Contributions(live), k, sizeX, sizeY)) <= LiveOffsets(live, k, sizeX, sizeY)
  {
    var ts := ContributionsTo(Contributions(live), k, sizeX, sizeY);
    forall d | d in ReversedOffsets(ts)
      ensures d in LiveOffsets(live, k, sizeX, sizeY)
    {
      var t :| t in ts && d == (-t.dx, -t.dy);
      ReversedOffsetIsLive(live, k, sizeX, sizeY, t);
    }
  }

  lemma ReversedOffsetIsLive(live: set<Cell>, k: Cell, sizeX: int, sizeY: int, t: Contribution)
    requires sizeX > 0 && sizeY > 0 && WithinGrid(live, sizeX, sizeY)
    requires t in Contributions(live) && Target(t, sizeX, sizeY) == k
    ensures (-t.dx, -t.dy) in LiveOffsets(live, k, sizeX, sizeY)
  {
    assert t.source in live && IsOffset(t.dx, t.dy);
    SourceOfContribution(t, sizeX, sizeY);
    assert (-t.dx, -t.dy) in Offsets();
  }

  lemma LiveOffsetsAreReversed(live: set<Cell>, k: Cell, sizeX: int, sizeY: int)
    requires sizeX > 0 && sizeY > 0 && InGrid(k, sizeX, sizeY)
    ensures LiveOffsets(live, k, sizeX, sizeY) <= ReversedOffsets(ContributionsTo(Contributions(live), k, sizeX, sizeY))
  {
    var ts := ContributionsTo(Contributions(live), k, sizeX, sizeY);
    forall d | d in LiveOffsets(live, k, sizeX, sizeY)
      ensures d in ReversedOffsets(ts)
    {
      LiveOffsetIsReversed(live, k, sizeX, sizeY, d);
    }
  }

  lemma LiveOffsetIsReversed(live: set<Cell>, k: Cell, sizeX: int, sizeY: int, d: (int, int))
    requires sizeX > 0 && sizeY > 0 && InGrid(k, sizeX, sizeY)
    requires d in LiveOffsets(live, k, sizeX, sizeY)
    ensures d in ReversedOffsets(ContributionsTo(Contributions(live), k, sizeX, sizeY))
  {
    var source := WrapCell(k.x + d.0, k.y + d.1, sizeX, sizeY);
    var t := Contribution(source, -d.0, -d.1);
    assert t in Contributions(live);
    WrapShift(k.x + d.0, -d.0, sizeX);
    WrapShift(k.y + d.1, -d.1, sizeY);
    WrapInRange(k.x, sizeX);
    WrapInRange(k.y, sizeY);
    assert t in ContributionsTo(Contributions(live), k, sizeX, sizeY);
  }

  /** The rule in the usual words: on a grid holding the live set, a cell is live in the next
      generation iff it is live with 2 or 3 live toroidal neighbours or dead with exactly 3. */
  lemma NextGenerationIsLife(live: set<Cell>, k: Cell, sizeX: int, sizeY: int)
    requires sizeX > 0 && sizeY > 0
    requires WithinGrid(live, sizeX, sizeY) && InGrid(k, sizeX, sizeY)
    ensures var n := LiveNeighbours(live, k, sizeX, sizeY);
      k in NextGeneration(live, sizeX, sizeY) <==> (k in live && (n == 2 || n == 3)) || (k !in live && n == 3)
  {
    NextGenerationRule(live, k, sizeX, sizeY);
    NeighbourCountIsToroidal(live, k, sizeX, sizeY);
  }

  /** Toroidal adjacency at the corners: a live cell at the origin is a neighbour of the last
      cell of row 0, of the last cell of column 0 and of the opposite corner. */
  lemma OriginNeighboursWrapAround(live: set<Cell>, sizeX: int, sizeY: int)
    requires sizeX > 0 && sizeY > 0 && Cell(0, 0) in live
    ensures (1, 0) in LiveOffsets(live, Cell(sizeX - 1, 0), sizeX, sizeY)
    ensures (0, 1) in LiveOffsets(live, Cell(0, sizeY - 1), sizeX, sizeY)
    ensures (1, 1) in LiveOffsets(live, Cell(sizeX - 1, sizeY - 1), sizeX, sizeY)
  {
    WrapIsResidue(sizeX, sizeX);
    WrapIsResidue(sizeY, sizeY);
    WrapInRange(0, sizeX);
    WrapInRange(0, sizeY);
    assert (1, 0) in Offsets() && (0, 1) in Offsets() && (1, 1) in Offsets();
  }
}
