/** The loops of `updateGameStateSparse` (worker.js), over the live set passed in: counting
    neighbours around live cells, then applying the rule to the relevant cells while recording
    the cells whose state flips. */
module SparseStep {
  import opened Common
  import opened JsArith
  import opened ChangeLists
  import opened LifeRules

  /** `neighborCounts.get(key) || 0`. */
  function CountOrZero(counts: map<Cell, nat>, k: Cell): nat
  {
    if k in counts then counts[k] else 0
  }

  /** The contributions of `source` that the nested `dy`/`dx` loops have made once they stand
      at `(dx, dy)` (the loops run `dy` outside, `dx` inside, both from -1 to 1). */
  function OffsetsBefore(source: Cell, dx: int, dy: int): set<Contribution>
  {
    set ddx, ddy | -1 <= ddx <= 1 && -1 <= ddy <= 1 && IsOffset(ddx, ddy) && (ddy < dy || (ddy == dy && ddx < dx))
      :: Contribution(source, ddx, ddy)
  }

  /** The map holds, for every cell, the number of contributions in `counted` aimed at it. */
  ghost predicate CountsMatch(counts: map<Cell, nat>, counted: set<Contribution>, sizeX: int, sizeY: int)
    requires sizeX != 0 && sizeY != 0
  {
    forall k :: CountOrZero(counts, k) == |ContributionsTo(counted, k, sizeX, sizeY)|
  }

  lemma CountOneMore(counts: map<Cell, nat>, counted: set<Contribution>, t: Contribution, sizeX: int, sizeY: int)
    requires sizeX != 0 && sizeY != 0
    requires CountsMatch(counts, counted, sizeX, sizeY) && t !in counted
    ensures var k := Target(t, sizeX, sizeY);
      CountsMatch(counts[k := CountOrZero(counts, k) + 1], counted + {t}, sizeX, sizeY)
  {
    var nk := Target(t, sizeX, sizeY);
    var counts' := counts[nk := CountOrZero(counts, nk) + 1];
    forall k
      ensures CountOrZero(counts', k) == |ContributionsTo(counted + {t}, k, sizeX, sizeY)|
    {
      ContributionsToOneMore(counted, t, k, sizeX, sizeY);
    }
  }

  /** Adding a contribution adds it to the contributions aimed at its target and to no other. */
  lemma ContributionsToOneMore(counted: set<Contribution>, t: Contribution, k: Cell, sizeX: int, sizeY: int)
    requires sizeX != 0 && sizeY != 0 && t !in counted
    ensures |ContributionsTo(counted + {t}, k, sizeX, sizeY)| ==
      |ContributionsTo(counted, k, sizeX, sizeY)| + (if Target(t, sizeX, sizeY) == k then 1 else 0)
  {
    if Target(t, sizeX, sizeY) == k {
      assert ContributionsTo(counted + {t}, k, sizeX, sizeY) == ContributionsTo(counted, k, sizeX, sizeY) + {t};
    } else {
      assert ContributionsTo(counted + {t}, k, sizeX, sizeY) == ContributionsTo(counted, k, sizeX, sizeY);
    }
  }

  lemma TargetsOneMore(counted: set<Contribution>, t: Contribution, sizeX: int, sizeY: int)
    requires sizeX != 0 && sizeY != 0
    ensures Targets(counted + {t}, sizeX, sizeY) == Targets(counted, sizeX, sizeY) + {Target(t, sizeX, sizeY)}
  {
  }

  lemma OffsetsBeforeNext(source: Cell, dx: int, dy: int)
    requires -1 <= dx <= 1 && -1 <= dy <= 1
    ensures OffsetsBefore(source, dx + 1, dy) ==
      OffsetsBefore(source, dx, dy) + (if IsOffset(dx, dy) then {Contribution(source, dx, dy)} else {})
  {
  }

  lemma OffsetsBeforeNextRow(source: Cell, dy: int)
    ensures OffsetsBefore(source, 2, dy) == OffsetsBefore(source, -1, dy + 1)
  {
  }

  lemma ContributionsOneMore(visited: set<Cell>, c: Cell)
    ensures Contributions(visited + {c}) == Contributions(visited) + OffsetsBefore(c, -1, 2)
  {
  }

  /** Phase 1 (worker.js, lines 32-57): for every live cell, mark it relevant and add one to
      the count of each of its eight wrapped neighbours, marking them relevant too. */
  method CountNeighbours(liveCells: set<Cell>, sizeX: int, sizeY: int)
    returns (neighborCounts: map<Cell, nat>, relevantCells: set<Cell>)
    requires sizeX != 0 && sizeY != 0
    ensures forall k :: CountOrZero(neighborCounts, k) == NeighbourCount(liveCells, k, sizeX, sizeY)
    ensures relevantCells == RelevantCells(liveCells, sizeX, sizeY)
  {
    neighborCounts := map[];
    relevantCells := {};
    ghost var visited: set<Cell> := {};
    ghost var counted: set<Contribution> := {};
    var remaining := liveCells;
    while remaining != {}
      invariant remaining <= liveCells && visited == liveCells - remaining
      invariant counted == Contributions(visited)
      invariant relevantCells == visited + Targets(counted, sizeX, sizeY)
      invariant CountsMatch(neighborCounts, counted, sizeX, sizeY)
      decreases remaining
    {
      var c :| c in remaining;
      remaining := remaining - {c};
      relevantCells := relevantCells + {c};
      ghost var before := counted;
      neighborCounts, relevantCells, counted := CountAround(c, sizeX, sizeY, neighborCounts, relevantCells, counted);
      ContributionsOneMore(visited, c);
      TargetsUnion(before, OffsetsBefore(c, -1, 2), sizeX, sizeY);
      visited := visited + {c};
    }
    assert visited == liveCells;
    forall k
      ensures CountOrZero(neighborCounts, k) == NeighbourCount(liveCells, k, sizeX, sizeY)
    {
      assert CountOrZero(neighborCounts, k) == |ContributionsTo(counted, k, sizeX, sizeY)|;
    }
  }

  lemma TargetsUnion(a: set<Contribution>, b: set<Contribution>, sizeX: int, sizeY: int)
    requires sizeX != 0 && sizeY != 0
    ensures Targets(a + b, sizeX, sizeY) == Targets(a, sizeX, sizeY) + Targets(b, sizeX, sizeY)
  {
  }

  /** The nested `dy`/`dx` loops of phase 1 for the live cell `c`: skip `(0, 0)`, wrap each
      neighbour onto the torus, count it and mark it relevant. */
  method CountAround(c: Cell, sizeX: int, sizeY: int, counts0: map<Cell, nat>, relevant0: set<Cell>,
                     ghost counted0: set<Contribution>)
    returns (neighborCounts: map<Cell, nat>, relevantCells: set<Cell>, ghost counted: set<Contribution>)
    requires sizeX != 0 && sizeY != 0
    requires CountsMatch(counts0, counted0, sizeX, sizeY)
    requires forall t | t in counted0 :: t.source != c
    ensures counted == counted0 + OffsetsBefore(c, -1, 2)
    ensures relevantCells == relevant0 + Targets(OffsetsBefore(c, -1, 2), sizeX, sizeY)
    ensures CountsMatch(neighborCounts, counted, sizeX, sizeY)
  {
    neighborCounts, relevantCells, counted := counts0, relevant0, counted0;
    var dy := -1;
    while dy <= 1
      invariant -1 <= dy <= 2
      invariant counted == counted0 + OffsetsBefore(c, -1, dy)
      invariant relevantCells == relevant0 + Targets(OffsetsBefore(c, -1, dy), sizeX, sizeY)
      invariant CountsMatch(neighborCounts, counted, sizeX, sizeY)
    {
      var dx := -1;
      while dx <= 1
        invariant -1 <= dx <= 2
        invariant counted == counted0 + OffsetsBefore(c, dx, dy)
        invariant relevantCells == relevant0 + Targets(OffsetsBefore(c, dx, dy), sizeX, sizeY)
        invariant CountsMatch(neighborCounts, counted, sizeX, sizeY)
      {
        OffsetsBeforeNext(c, dx, dy);
        if !(dx == 0 && dy == 0) {
          var wrappedX := Wrap(c.x + dx, sizeX);
          var wrappedY := Wrap(c.y + dy, sizeY);
          var neighborKey := Cell(wrappedX, wrappedY);
          CountStep(c, dx, dy, sizeX, sizeY, neighborCounts, relevantCells, counted, relevant0, counted0);
          neighborCounts := neighborCounts[neighborKey := CountOrZero(neighborCounts, neighborKey) + 1];
          relevantCells := relevantCells + {neighborKey};
          counted := counted + {Contribution(c, dx, dy)};
        }
        dx := dx + 1;
      }
      OffsetsBeforeNextRow(c, dy);
      dy := dy + 1;
    }
  }

  /** One pass of the inner loop body for a neighbour offset: the updated map, relevant set and
      counted contributions again satisfy the loop invariants, one offset further on. */
  lemma CountStep(c: Cell, dx: int, dy: int, sizeX: int, sizeY: int, counts: map<Cell, nat>,
                  relevant: set<Cell>, counted: set<Contribution>, relevant0: set<Cell>, counted0: set<Contribution>)
    requires sizeX != 0 && sizeY != 0 && -1 <= dx <= 1 && -1 <= dy <= 1 && !(dx == 0 && dy == 0)
    requires counted == counted0 + OffsetsBefore(c, dx, dy)
    requires relevant == relevant0 + Targets(OffsetsBefore(c, dx, dy), sizeX, sizeY)
    requires CountsMatch(counts, counted, sizeX, sizeY)
    requires forall t | t in counted0 :: t.source != c
    ensures var t := Contribution(c, dx, dy);
      var k := Cell(Wrap(c.x + dx, sizeX), Wrap(c.y + dy, sizeY));
      && counted + {t} == counted0 + OffsetsBefore(c, dx + 1, dy)
      && relevant + {k} == relevant0 + Targets(OffsetsBefore(c, dx + 1, dy), sizeX, sizeY)
      && CountsMatch(counts[k := CountOrZero(counts, k) + 1], counted + {t}, sizeX, sizeY)
  {
    var t := Contribution(c, dx, dy);
    assert Cell(Wrap(c.x + dx, sizeX), Wrap(c.y + dy, sizeY)) == Target(t, sizeX, sizeY);
    OffsetsBeforeNext(c, dx, dy);
    assert t !in counted;
    CountOneMore(counts, counted, t, sizeX, sizeY);
    TargetsOneMore(OffsetsBefore(c, dx, dy), t, sizeX, sizeY);
  }

  /** The cells of `domain` the rule makes live, given the accumulated counts. */
  function SurvivorsAndBirths(domain: set<Cell>, liveCells: set<Cell>, counts: map<Cell, nat>): set<Cell>
  {
    set k | k in domain && WillBeAlive(k in liveCells, CountOrZero(counts, k))
  }

  /** Phase 2 (worker.js, lines 59-86): decide every relevant cell, collect the next live set,
      and record a change for each relevant cell whose state flips. */
  method ApplyRule(liveCells: set<Cell>, relevantCells: set<Cell>, neighborCounts: map<Cell, nat>)
    returns (nextLiveCells: set<Cell>, changes: seq<Change>)
    requires liveCells <= relevantCells
    ensures nextLiveCells == SurvivorsAndBirths(relevantCells, liveCells, neighborCounts)
    ensures IsDiff(changes, liveCells, nextLiveCells)
  {
    nextLiveCells := {};
    changes := [];
    ghost var processed: set<Cell> := {};
    var pending := relevantCells;
    while pending != {}
      invariant pending <= relevantCells && processed == relevantCells - pending
      invariant nextLiveCells == SurvivorsAndBirths(processed, liveCells, neighborCounts)
      invariant NoRepeatedCell(changes)
      invariant forall i | 0 <= i < |changes| ::
        changes[i].alive == WillBeAlive(CellOf(changes[i]) in liveCells, CountOrZero(neighborCounts, CellOf(changes[i])))
      invariant ChangedCells(changes) ==
        set k | k in processed && (k in liveCells) != WillBeAlive(k in liveCells, CountOrZero(neighborCounts, k))
      decreases pending
    {
      var key :| key in pending;
      pending := pending - {key};
      var count := CountOrZero(neighborCounts, key);
      var isCurrentlyAlive := key in liveCells;
      var willBeAlive := false;
      if isCurrentlyAlive && (count == 2 || count == 3) {
        willBeAlive := true;
      } else if !isCurrentlyAlive && count == 3 {
        willBeAlive := true;
      }
      if willBeAlive {
        nextLiveCells := nextLiveCells + {key};
      }
      if isCurrentlyAlive != willBeAlive {
        assert key !in ChangedCells(changes);
        ChangedCellsAppend(changes, Change(key.x, key.y, willBeAlive));
        changes := changes + [Change(key.x, key.y, willBeAlive)];
      }
      processed := processed + {key};
    }
    forall i | 0 <= i < |changes|
      ensures changes[i].alive == (CellOf(changes[i]) in nextLiveCells)
    {
      assert CellOf(changes[i]) in ChangedCells(changes);
    }
  }

  /** `updateGameStateSparse` without its effects on the worker's state: the next live set
      and the change list, for a grid whose sizes are set. */
  method ComputeNextGeneration(liveCells: set<Cell>, sizeX: int, sizeY: int)
    returns (nextLiveCells: set<Cell>, changes: seq<Change>)
    requires sizeX != 0 && sizeY != 0
    ensures nextLiveCells == NextGeneration(liveCells, sizeX, sizeY)
    ensures IsDiff(changes, liveCells, nextLiveCells)
  {
    var neighborCounts, relevantCells := CountNeighbours(liveCells, sizeX, sizeY);
    nextLiveCells, changes := ApplyRule(liveCells, relevantCells, neighborCounts);
  }
}
