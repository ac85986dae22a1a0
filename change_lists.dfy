/** Change lists as the worker emits them in `stateChanges` messages, and what replaying one means. */
module ChangeLists {
  import opened Common

  /** The cells a change list mentions. */
  function ChangedCells(cs: seq<Change>): set<Cell>
  {
    set i | 0 <= i < |cs| :: CellOf(cs[i])
  }

  lemma ChangedCellsAppend(cs: seq<Change>, ch: Change)
    ensures ChangedCells(cs + [ch]) == ChangedCells(cs) + {CellOf(ch)}
  {
    var cs' := cs + [ch];
    assert cs'[|cs|] == ch;
    forall i | 0 <= i < |cs|
      ensures cs'[i] == cs[i]
    {
    }
  }

  predicate NoRepeatedCell(cs: seq<Change>)
  {
    forall i, j | 0 <= i < j < |cs| :: CellOf(cs[i]) != CellOf(cs[j])
  }

  /** `cs` is the minimal diff from the live set `before` to `after`: one entry per cell whose
      state differs, carrying the new state, and nothing else. */
  predicate IsDiff(cs: seq<Change>, before: set<Cell>, after: set<Cell>)
  {
    && NoRepeatedCell(cs)
    && (forall i | 0 <= i < |cs| :: cs[i].alive == (CellOf(cs[i]) in after))
    && ChangedCells(cs) == (before - after) + (after - before)
  }

  /** The state of cell `c` after the changes `cs` are applied in order to a cell whose
      state was `initial`: the last change to `c` wins. */
  function LastWrite(cs: seq<Change>, c: Cell, initial: bool): bool
  {
    if cs == [] then initial
    else if CellOf(cs[|cs| - 1]) == c then cs[|cs| - 1].alive
    else LastWrite(cs[..|cs| - 1], c, initial)
  }

  /** Replaying `cs` over the live set `before`, cell by cell, yields `after`. */
  ghost predicate Replays(cs: seq<Change>, before: set<Cell>, after: set<Cell>)
  {
    forall c :: LastWrite(cs, c, c in before) == (c in after)
  }

  /** A change list leaves the cells it does not mention alone, and gives each cell it does
      mention the state of one of its entries for that cell. */
  lemma {:induction false} LastWriteCases(cs: seq<Change>, c: Cell, initial: bool)
    ensures c !in ChangedCells(cs) ==> LastWrite(cs, c, initial) == initial
    ensures c in ChangedCells(cs) ==>
      exists i | 0 <= i < |cs| :: CellOf(cs[i]) == c && LastWrite(cs, c, initial) == cs[i].alive
  {
    if cs != [] {
      var n := |cs| - 1;
      var prefix := cs[..n];
      LastWriteCases(prefix, c, initial);
      assert ChangedCells(cs) == ChangedCells(prefix) + {CellOf(cs[n])} by {
        forall i | 0 <= i < n ensures prefix[i] == cs[i] { }
      }
      if CellOf(cs[n]) != c && c in ChangedCells(prefix) {
        var i :| 0 <= i < n && CellOf(prefix[i]) == c && LastWrite(prefix, c, initial) == prefix[i].alive;
        assert cs[i] == prefix[i];
      }
    }
  }

  /** Replaying a diff from its old live set reproduces its new live set. */
  lemma DiffReplays(cs: seq<Change>, before: set<Cell>, after: set<Cell>)
    requires IsDiff(cs, before, after)
    ensures Replays(cs, before, after)
  {
    forall c
      ensures LastWrite(cs, c, c in before) == (c in after)
    {
      LastWriteCases(cs, c, c in before);
    }
  }
}
