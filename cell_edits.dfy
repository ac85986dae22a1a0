/** What a `setCells` message does to the live set (worker.js, the `setCells` case): each
    well-formed, in-range request that disagrees with the cell's current state flips the cell
    and is reported; every other request is dropped without stopping the batch. */
module CellEdits {
  import opened Common
  import opened ChangeLists
  import opened LifeRules

  /** One element of `data.cells`: an object with numeric `x`, `y` and boolean `alive`,
      or anything else. */
  datatype CellRequest = Request(x: int, y: int, alive: bool) | Malformed

  /** The live set and the changes reported so far. */
  datatype Edit = Edit(liveCells: set<Cell>, changes: seq<Change>)

  /** The structure and bounds checks a request must pass. */
  predicate Accepted(r: CellRequest, sizeX: int, sizeY: int)
  {
    r.Request? && r.y >= 0 && r.y < sizeY && r.x >= 0 && r.x < sizeX
  }

  function CellOfRequest(r: CellRequest): Cell
    requires r.Request?
  {
    Cell(r.x, r.y)
  }

  /** One iteration of the `forEach`. */
  function ApplyRequest(e: Edit, r: CellRequest, sizeX: int, sizeY: int): Edit
  {
    if Accepted(r, sizeX, sizeY) then
      var key := CellOfRequest(r);
      var currentlyAlive := key in e.liveCells;
      if r.alive && !currentlyAlive then Edit(e.liveCells + {key}, e.changes + [Change(r.x, r.y, r.alive)])
      else if !r.alive && currentlyAlive then Edit(e.liveCells - {key}, e.changes + [Change(r.x, r.y, r.alive)])
      else e
    else e
  }

  /** The `forEach` over `requests`, continuing from `e`. */
  function ApplyFrom(e: Edit, requests: seq<CellRequest>, sizeX: int, sizeY: int): Edit
  {
    if requests == [] then e
    else ApplyRequest(ApplyFrom(e, requests[..|requests| - 1], sizeX, sizeY), requests[|requests| - 1], sizeX, sizeY)
  }

  /** The whole batch, from the current live set and no changes. */
  function ApplyRequests(liveCells: set<Cell>, sizeX: int, sizeY: int, requests: seq<CellRequest>): Edit
  {
    ApplyFrom(Edit(liveCells, []), requests, sizeX, sizeY)
  }

  /** Processing a batch in two parts is processing it whole. */
  lemma {:induction false} ApplyFromAppend(e: Edit, a: seq<CellRequest>, b: seq<CellRequest>, sizeX: int, sizeY: int)
    ensures ApplyFrom(e, a + b, sizeX, sizeY) == ApplyFrom(ApplyFrom(e, a, sizeX, sizeY), b, sizeX, sizeY)
  {
    if b == [] {
      assert a + b == a;
    } else {
      assert (a + b)[..|a + b| - 1] == a + b[..|b| - 1];
      ApplyFromAppend(e, a, b[..|b| - 1], sizeX, sizeY);
    }
  }

  /** A malformed or out-of-range request, wherever it stands in the batch, changes nothing. */
  lemma DroppedRequestIsIgnored(liveCells: set<Cell>, sizeX: int, sizeY: int,
                                before: seq<CellRequest>, r: CellRequest, after: seq<CellRequest>)
    requires !Accepted(r, sizeX, sizeY)
    ensures ApplyRequests(liveCells, sizeX, sizeY, before + [r] + after) == ApplyRequests(liveCells, sizeX, sizeY, before + after)
  {
    var e := Edit(liveCells, []);
    ApplyFromAppend(e, before + [r], after, sizeX, sizeY);
    ApplyFromAppend(e, before, [r], sizeX, sizeY);
    ApplyFromAppend(e, before, after, sizeX, sizeY);
    assert ApplyFrom(ApplyFrom(e, before, sizeX, sizeY), [r], sizeX, sizeY) == ApplyFrom(e, before, sizeX, sizeY) by {
      assert [r][..0] == [];
    }
  }

  /** Before `init` the grid sizes are 0, so every request fails the bounds check. */
  lemma {:induction false} NothingAcceptedOnEmptyGrid(e: Edit, sizeX: int, sizeY: int, requests: seq<CellRequest>)
    requires sizeX <= 0 || sizeY <= 0
    ensures ApplyFrom(e, requests, sizeX, sizeY) == e
  {
    if requests != [] {
      NothingAcceptedOnEmptyGrid(e, sizeX, sizeY, requests[..|requests| - 1]);
    }
  }

  /** Idempotence: requests that all agree with the current state change nothing and report nothing. */
  lemma {:induction false} AgreeingRequestsChangeNothing(e: Edit, sizeX: int, sizeY: int, requests: seq<CellRequest>)
    requires forall i | 0 <= i < |requests| && Accepted(requests[i], sizeX, sizeY) ::
      requests[i].alive == (CellOfRequest(requests[i]) in e.liveCells)
    ensures ApplyFrom(e, requests, sizeX, sizeY) == e
  {
    if requests != [] {
      AgreeingRequestsChangeNothing(e, sizeX, sizeY, requests[..|requests| - 1]);
    }
  }

  /** The batch only adds cells inside the grid: a live set inside the grid stays inside it. */
  lemma {:induction false} ApplyFromStaysInGrid(e: Edit, sizeX: int, sizeY: int, requests: seq<CellRequest>)
    requires WithinGrid(e.liveCells, sizeX, sizeY)
    ensures WithinGrid(ApplyFrom(e, requests, sizeX, sizeY).liveCells, sizeX, sizeY)
  {
    if requests != [] {
      ApplyFromStaysInGrid(e, sizeX, sizeY, requests[..|requests| - 1]);
    }
  }

  /** The reported changes are a faithful log: replayed over the old live set they give the
      new one, and each of them flips its cell relative to the changes before it. */
  lemma {:induction false} ChangesReplay(liveCells: set<Cell>, sizeX: int, sizeY: int, requests: seq<CellRequest>)
    ensures var e := ApplyRequests(liveCells, sizeX, sizeY, requests);
      && Replays(e.changes, liveCells, e.liveCells)
      && forall i | 0 <= i < |e.changes| ::
           LastWrite(e.changes[..i], CellOf(e.changes[i]), CellOf(e.changes[i]) in liveCells) != e.changes[i].alive
  {
    if requests != [] {
      var prefix := requests[..|requests| - 1];
      ChangesReplay(liveCells, sizeX, sizeY, prefix);
      var e0 := ApplyRequests(liveCells, sizeX, sizeY, prefix);
      var e := ApplyRequests(liveCells, sizeX, sizeY, requests);
      if e.changes != e0.changes {
        var ch := e.changes[|e0.changes|];
        assert e.changes == e0.changes + [ch];
        assert e.changes[..|e0.changes|] == e0.changes;
        forall c
          ensures LastWrite(e.changes, c, c in liveCells) == (c in e.liveCells)
        {
          assert e.changes[..|e.changes| - 1] == e0.changes;
        }
        forall i | 0 <= i < |e.changes|
          ensures LastWrite(e.changes[..i], CellOf(e.changes[i]), CellOf(e.changes[i]) in liveCells) != e.changes[i].alive
        {
          if i < |e0.changes| {
            assert e.changes[..i] == e0.changes[..i];
            assert e.changes[i] == e0.changes[i];
          }
        }
      }
    }
  }

  /** Every reported change is one of the requests, accepted, and reported with its own values. */
  lemma {:induction false} ChangesComeFromRequests(e: Edit, sizeX: int, sizeY: int, requests: seq<CellRequest>)
    ensures var e' := ApplyFrom(e, requests, sizeX, sizeY);
      && |e.changes| <= |e'.changes| <= |e.changes| + |requests|
      && e'.changes[..|e.changes|] == e.changes
      && forall i | |e.changes| <= i < |e'.changes| ::
           var ch := e'.changes[i];
           Request(ch.x, ch.y, ch.alive) in requests && Accepted(Request(ch.x, ch.y, ch.alive), sizeX, sizeY)
  {
    if requests != [] {
      var prefix := requests[..|requests| - 1];
      ChangesComeFromRequests(e, sizeX, sizeY, prefix);
      var e0 := ApplyFrom(e, prefix, sizeX, sizeY);
      var e' := ApplyFrom(e, requests, sizeX, sizeY);
      assert forall r | r in prefix :: r in requests;
      if e'.changes != e0.changes {
        assert e'.changes == e0.changes + [e'.changes[|e0.changes|]];
        assert e'.changes[..|e.changes|] == e0.changes[..|e.changes|];
      }
    }
  }

  /** Request `i` of the batch is reported exactly when it is accepted and flips its cell: its
      change is then appended to the changes of the requests before it, otherwise nothing
      happens; either way what it leaves stays a prefix of the batch's final report. */
  predicate ReportsFlip(e: Edit, requests: seq<CellRequest>, i: int, sizeX: int, sizeY: int)
    requires 0 <= i < |requests|
  {
    var before := ApplyFrom(e, requests[..i], sizeX, sizeY);
    var after := ApplyFrom(e, requests[..i + 1], sizeX, sizeY);
    var r := requests[i];
    && (if Accepted(r, sizeX, sizeY) && r.alive != (CellOfRequest(r) in before.liveCells)
        then after.changes == before.changes + [Change(r.x, r.y, r.alive)]
        else after == before)
    && after.changes <= ApplyFrom(e, requests, sizeX, sizeY).changes
  }

  /** Every accepted request that flips its cell is reported, in batch order. */
  lemma EveryFlipIsReported(e: Edit, sizeX: int, sizeY: int, requests: seq<CellRequest>)
    ensures forall i | 0 <= i < |requests| :: ReportsFlip(e, requests, i, sizeX, sizeY)
  {
    forall i | 0 <= i < |requests|
      ensures ReportsFlip(e, requests, i, sizeX, sizeY)
    {
      var head := requests[..i + 1];
      var tail := requests[i + 1..];
      assert head[..i] == requests[..i];
      assert requests == head + tail;
      ApplyFromAppend(e, head, tail, sizeX, sizeY);
      ChangesComeFromRequests(ApplyFrom(e, head, sizeX, sizeY), sizeX, sizeY, tail);
    }
  }

  /** No two accepted requests of the batch ask for different states of the same cell. */
  predicate NoConflicts(requests: seq<CellRequest>, sizeX: int, sizeY: int)
  {
    forall i, j | 0 <= i < j < |requests| && Accepted(requests[i], sizeX, sizeY) && Accepted(requests[j], sizeX, sizeY) ::
      CellOfRequest(requests[i]) == CellOfRequest(requests[j]) ==> requests[i].alive == requests[j].alive
  }

  /** After a conflict-free batch, every cell it names is in the state it asked for. */
  lemma {:induction false} RequestsAreHonoured(e: Edit, sizeX: int, sizeY: int, requests: seq<CellRequest>)
    requires NoConflicts(requests, sizeX, sizeY)
    ensures forall i | 0 <= i < |requests| && Accepted(requests[i], sizeX, sizeY) ::
      requests[i].alive == (CellOfRequest(requests[i]) in ApplyFrom(e, requests, sizeX, sizeY).liveCells)
  {
    if requests != [] {
      var n := |requests| - 1;
      var prefix := requests[..n];
      assert NoConflicts(prefix, sizeX, sizeY) by {
        forall i, j | 0 <= i < j < |prefix| && Accepted(prefix[i], sizeX, sizeY) && Accepted(prefix[j], sizeX, sizeY)
          ensures CellOfRequest(prefix[i]) == CellOfRequest(prefix[j]) ==> prefix[i].alive == prefix[j].alive
        {
          assert prefix[i] == requests[i] && prefix[j] == requests[j];
        }
      }
      RequestsAreHonoured(e, sizeX, sizeY, prefix);
      forall i | 0 <= i < |requests| && Accepted(requests[i], sizeX, sizeY)
        ensures requests[i].alive == (CellOfRequest(requests[i]) in ApplyFrom(e, requests, sizeX, sizeY).liveCells)
      {
        if i < n {
          assert prefix[i] == requests[i];
        }
      }
    }
  }

  /** Sending the same conflict-free batch twice: the second one changes and reports nothing. */
  lemma RepeatedBatchChangesNothing(liveCells: set<Cell>, sizeX: int, sizeY: int, requests: seq<CellRequest>)
    requires NoConflicts(requests, sizeX, sizeY)
    ensures var once := ApplyRequests(liveCells, sizeX, sizeY, requests).liveCells;
      ApplyRequests(once, sizeX, sizeY, requests) == Edit(once, [])
  {
    RequestsAreHonoured(Edit(liveCells, []), sizeX, sizeY, requests);
    var once := ApplyRequests(liveCells, sizeX, sizeY, requests).liveCells;
    AgreeingRequestsChangeNothing(Edit(once, []), sizeX, sizeY, requests);
  }
}
