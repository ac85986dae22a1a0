# Sparse Game of Life: a verified model

This project models the core of a browser Game of Life in Dafny and proves properties of that model. It has three parts:

- **Worker** (`worker.js`). The simulation engine runs in a web worker. It keeps the live cells as a set of `"x,y"` keys and holds a few module-level variables: grid size, running flag, speed and generation counter. It answers `init`, `start`, `stop`, `setCells` and `updateSpeed` messages. Each tick of `updateGameStateSparse` does three things:
  - counts neighbours only around live cells, on a torus;
  - applies the B3/S23 rule to the "relevant" cells;
  - posts back the cells whose state flipped.
- **Main thread** (`script.js`). The main thread does three things here:
  - `PatternManager` translates and cycles the stamp patterns;
  - `placeSpamPattern` wraps a pattern around the pointer;
  - the controller builds the dense boolean grid it sends with `init` and applies every `stateChanges` message to that grid.
- **RLE converter** (`resources/convertion/convert_rle.py`). Its `parse_rle` reads Life RLE pattern files (the Golly/LifeWiki convention) and produces a list of live cells.

## How it is organised

- `common.dfy`: `Option`, `Cell`, `Change` and `Point`.
- `js_arith.dfy`: JavaScript's truncating `%` (`JsRem`) and the two wrap idioms of the source:
  - `(n % s + s) % s`, proved to be the residue for every `n`;
  - `(n + s) % s`, proved to be the residue only from `-s` upwards.
- `decimal.dfy`: how an integer is written as decimal text and how the text reads back.
- `coord_keys.dfy`: the string keys `coordKey`/`parseKey`. Their round trip justifies modelling the live set as `set<Cell>`.
- `life_rules.dfy`: what one generation is, as a specification over sets.
  - A neighbour count is the number of (live cell, offset) contributions whose wrapped target is the cell. This stays exact even for live cells off the grid (which `init` can create) and for grids narrower than 3.
- `sparse_step.dfy`: the two loops of `updateGameStateSparse` as methods over a `map` and `set`s, proved equal to that specification.
- `change_lists.dfy`: what a change list means, and replaying one (`LastWrite`, `IsDiff`, `Replays`).
- `cell_edits.dfy`: the `setCells` batch as a function, with its properties.
- `worker_protocol.dfy`: the message state machine as functions on a `WorkerState` value.
- `worker.dfy`: the worker script as a class `GameWorker`.
  - Its fields are the module-level variables. Its methods update them in place.
  - Each method is proved to perform the transition that `worker_protocol.dfy` describes.
- `rle_decoder.dfy`: `parse_rle`.
  - The two loops are methods, proved equal to a functional specification (`ParsedCells`).
  - The decoder is proved to undo a run-length encoder over tokens.
- `patterns.dfy`: `GameConfig`'s grid size, the `PatternManager` class and the `placeSpamPattern` batch.
- `dense_mirror.dfy`: the dense `array2<bool>` that the main thread keeps.
  - How it is built and how `stateChanges` update it.
  - Methods that pair the worker with the grid and prove that the grid stays an exact image of the worker's live set.

Behaviours of `worker.js` that the model keeps:

- `start` before any `init` sets the running flag, and the first tick then stops it.
- The generation counter is reset by `startGameLoop` (and so by `updateSpeed` while running), not by `init`.
- `init` does not check the array against the configured grid size.
- `init` clears the live set before it finds out that the state is not an array.

## Model

| member | source | states |
|---|---|---|
| JsArith.JsRem | worker.js:47-48 | JavaScript's `%`: the remainder truncated toward zero, with the sign of the dividend. Its relation to the residue is stated by `WrapIsResidue` and `ShiftWrapResidue`. |
| JsArith.Wrap | worker.js:47-48 | The worker's double wrap `(n % s + s) % s` of a neighbour coordinate. |
| JsArith.ShiftWrap | script.js:404-405 | The main thread's single wrap `(n + s) % s`. |
| JsArith.WrapIsResidue | worker.js:47-48 | The double wrap `(n % s + s) % s` equals the mathematical residue for every integer `n`, so it lies in `[0, s)`. This includes `n = -1` (wraps to `s - 1`) and `n = s` (wraps to `0`). |
| JsArith.WrapShift | worker.js:44-48 | Adding an offset to an already wrapped coordinate and wrapping again gives the same cell as wrapping the unwrapped sum. |
| JsArith.ShiftWrapResidue | script.js:404-405 | The single wrap `(n + s) % s` is the residue of `n` when `n >= -s`. Below that it is the residue minus `s`: negative, unless the residue is 0. |
| Decimal.NatToDecimal | worker.js:14 | The shortest decimal rendering of a natural number: digits only, at least one. |
| Decimal.IntToDecimal | worker.js:14 | `${x}` for an integer: a minus sign for negatives, then the digits; it never contains a comma. |
| CoordKeys.CoordKey | worker.js:13-15 | The key `` `${x},${y}` ``: decimal `x`, a comma, decimal `y`, for integers below 10^21 in magnitude (see "Left out"). |
| CoordKeys.IsJsSpace | worker.js:20 | The whitespace `parseInt` skips, restricted to the ASCII and Latin-1 characters. |
| CoordKeys.TrimStart | worker.js:20 | The leading-whitespace skip of `parseInt`: the result starts with no such character. |
| CoordKeys.ParseInt | worker.js:20 | `parseInt(_, 10)`: leading ASCII and Latin-1 whitespace skipped (see "Left out"), an optional sign, then the longest run of decimal digits; no digits is `NaN`. |
| CoordKeys.SplitCommas | worker.js:19 | `key.split(',')`: the pieces between commas, in order, always at least one. |
| CoordKeys.ParseKey | worker.js:18-21 | `parseInt` of the first two pieces of `key.split(',')`, a missing piece being `NaN`. Its round trip with `CoordKey` is `ParseKeyOfCoordKey`. |
| CoordKeys.ParseKeyOfCoordKey | worker.js:13-21 | `parseKey(coordKey(x, y))` returns `x` and `y`. This is proved for every pair of integers, and is the source's behaviour for safe integers, below 2^53 in magnitude (see "Left out"). |
| CoordKeys.ParseIntOfDecimal | worker.js:20 | `parseInt(_, 10)` reads back the decimal rendering of any integer, negative ones included. |
| CoordKeys.CoordKeyInjective | worker.js:13-15 | Distinct coordinates have distinct keys, so a set of keys and a set of cells hold the same information. |
| Decimal.DigitsValueOfDecimal | worker.js:14 | The value of the decimal text of a natural number is that number. |
| LifeRules.NeighbourCount | worker.js:36-57 | The value `neighborCounts` holds for a cell: the number of (live cell, offset) pairs whose wrapped target is that cell. |
| LifeRules.RelevantCells | worker.js:36-57 | `relevantCells`: the live cells and every wrapped neighbour of a live cell. |
| LifeRules.WillBeAlive | worker.js:70-74 | The B3/S23 rule: a live cell survives with 2 or 3 neighbours, a dead cell is born with exactly 3. |
| LifeRules.NextGeneration | worker.js:59-86 | `nextLiveCells`: the relevant cells for which the rule holds. |
| LifeRules.NextGenerationRule | worker.js:63-80 | A cell is in the next generation iff the rule holds: live with a count of 2 or 3, or dead with a count of exactly 3. This holds for every cell, not only the relevant ones. |
| LifeRules.OutsideRelevantIsQuiet | worker.js:36-66 | A cell outside the live cells and their wrapped neighbours is dead with count 0. So scanning only the relevant cells misses no birth. |
| LifeRules.ChangesStayInRelevant | worker.js:63-86 | The cells whose state differs between a live set and its next generation are exactly the relevant cells that differ. |
| LifeRules.TargetInGrid | worker.js:47-49 | Every wrapped neighbour coordinate lies in `[0, gridSizeX) × [0, gridSizeY)`. |
| LifeRules.NextGenerationWithinGrid | worker.js:47-79 | For positive grid sizes, the next generation lies on the grid whatever the current live set is. |
| LifeRules.OutsideGridIsQuiet | worker.js:47-52 | For positive grid sizes, no cell off the grid receives a neighbour count. |
| LifeRules.NeighbourCountIsToroidal | worker.js:36-57 | For a live set on the grid, the accumulated count of a grid cell equals the number of its eight toroidal neighbours that are live, which is at most 8. |
| LifeRules.NextGenerationIsLife | worker.js:36-80 | On a grid holding the live set: a cell is live next iff it is live with 2 or 3 live toroidal neighbours, or dead with exactly 3. |
| LifeRules.OriginNeighboursWrapAround | worker.js:47-48 | A live cell at the origin counts as a neighbour of the last cell of row 0, the last cell of column 0 and the opposite corner. |
| SparseStep.CountOrZero | worker.js:65 | `neighborCounts.get(key) \|\| 0`: the stored count, or 0 for a cell never counted. |
| SparseStep.SurvivorsAndBirths | worker.js:59-86 | The cells of the relevant set that the rule makes live, given the accumulated counts: the `nextLiveCells` the rule loop builds. |
| SparseStep.CountNeighbours | worker.js:36-57 | The counting loop leaves, for every cell, `neighborCounts.get(key) \|\| 0` equal to the specified neighbour count, and leaves `relevantCells` equal to the live cells plus all their wrapped neighbours. |
| SparseStep.CountAround | worker.js:38-56 | The two offset loops for one live cell add its eight contributions to the counts and its eight targets to the relevant set, keeping the counts exact. |
| SparseStep.ApplyRule | worker.js:59-86 | The rule loop yields the survivors and births among the relevant cells. Its change list is a diff of the old and new sets: no cell twice, `alive` equal to the new state, and exactly the cells that flipped. |
| SparseStep.ComputeNextGeneration | worker.js:32-86 | The new live set is the specified next generation, and the change list is a diff from the old set to it. |
| ChangeLists.LastWrite | script.js:563-568 | The state a cell has after the `stateChanges` `forEach` writes the list in order: the `alive` of the last change for that cell, or its old state if none names it. |
| ChangeLists.LastWriteCases | script.js:563-568 | Replaying a change list leaves the cells it does not mention alone, and gives each mentioned cell the state of one of its own entries for that cell. |
| ChangeLists.DiffReplays | worker.js:83-85 | A diff replayed over its old live set reproduces the new live set. |
| CellEdits.Accepted | worker.js:183-184 | The structure check and the bounds check that a `setCells` request must pass. |
| CellEdits.ApplyRequest | worker.js:186-200 | One iteration of the `forEach`: an accepted request that disagrees with its cell adds or deletes it and is reported; every other request changes nothing. |
| CellEdits.ApplyFrom | worker.js:182-203 | The `forEach` over the batch, in order. |
| CellEdits.ApplyRequests | worker.js:182-203 | The whole `setCells` batch, from the current live set and an empty change list. |
| CellEdits.DroppedRequestIsIgnored | worker.js:183-202 | A malformed or out-of-range request anywhere in a batch can be removed without changing the result. The batch is not aborted. |
| CellEdits.AgreeingRequestsChangeNothing | worker.js:186-200 | Requests that agree with the current state of their cells change nothing and report nothing. |
| CellEdits.NothingAcceptedOnEmptyGrid | worker.js:184 | With a grid size of 0 (before `init`) or below, a batch changes nothing. |
| CellEdits.ApplyFromStaysInGrid | worker.js:184-195 | A batch keeps a live set that is on the grid on the grid. |
| CellEdits.ChangesReplay | worker.js:186-200 | The reported changes replayed over the old set give the new set. Each report flips its cell relative to the reports before it. |
| CellEdits.ChangesComeFromRequests | worker.js:186-200 | Every reported change is an accepted request of the batch, reported with its own `x`, `y` and `alive`. Earlier reports are kept as a prefix, and there are at most as many new reports as requests. The converse is `EveryFlipIsReported`. |
| CellEdits.EveryFlipIsReported | worker.js:186-200 | Each request of a batch is reported iff it is accepted and asks for the opposite of its cell's state after the requests before it. Its change is then appended, in batch order, and stays in the final report; otherwise the request leaves the set and the report as they were. |
| CellEdits.RequestsAreHonoured | worker.js:189-195 | After a batch with no conflicting requests, every cell it names on the grid is in the state it asked for. |
| CellEdits.RepeatedBatchChangesNothing | worker.js:182-203 | Sending the same conflict-free batch twice: the second time changes and reports nothing (idempotence). |
| CellEdits.ApplyFromAppend | worker.js:182-203 | Processing a batch in two parts gives the same result as processing it whole. |
| WorkerProtocol.GridCells | worker.js:148-157 | The cells the nested loops of `init` add: every `(x, y)` whose entry is exactly `true` in a row that is an array. |
| WorkerProtocol.StartLoop | worker.js:107-116 | `startGameLoop`: only a stopped loop starts, and starting resets the generation counter. |
| WorkerProtocol.StopLoop | worker.js:117-123 | `stopGameLoop`: clears the running flag. |
| WorkerProtocol.TickState | worker.js:25-104 | One call of `updateGameStateSparse`: stop when the grid has no size, otherwise replace the live set by the next generation and count the generation. |
| WorkerProtocol.HandleMessage | worker.js:127-234 | `self.onmessage`: the new state and the posted changes for each message type, including the ignored and malformed cases. |
| WorkerProtocol.InitialState | worker.js:4-10 | The worker starts with no live cells, a 0 by 0 grid, stopped, speed 100 and generation 0. |
| WorkerProtocol.StartThenStop | worker.js:107-123 | Starting sets the flag and, only when it was stopped, resets the generation. Stopping clears the flag. Starting a running loop and stopping a stopped one change nothing, so each is a no-op when repeated. Neither touches the live set. |
| WorkerProtocol.SpeedChangeRestartsCounter | worker.js:218-227 | A positive speed is stored. When running, the loop restarts, which resets the generation to 0. Nothing else changes and nothing is posted. |
| WorkerProtocol.BadSpeedIgnored | worker.js:221 | A missing, non-numeric or non-positive speed leaves the state unchanged. |
| WorkerProtocol.IncompleteInitIgnored | worker.js:136 | `init` without `config` or without `initialGameState` changes nothing. |
| WorkerProtocol.InitReplacesState | worker.js:139-157 | A complete `init`: stopped; grid and speed from the config; live cells exactly the `(x, y)` whose entry is `true`; generation unchanged. |
| WorkerProtocol.InitWithNonArrayClears | worker.js:146-162 | An `init` whose state is not an array still leaves the live set empty. |
| WorkerProtocol.InitOnGridIffRowsFit | worker.js:148-157 | After `init`, the live set is on the configured grid iff every `true` entry of the array lies inside it. |
| WorkerProtocol.InitAcceptsOversizedArray | worker.js:148-157 | `init` on a 1 by 1 grid with a `true` at column 1 leaves a live cell off the grid. |
| WorkerProtocol.SetCellsTouchesOnlyCells | worker.js:178-216 | `setCells` changes only the live set (not the counter, flag, speed or grid), and what it posts replays the old set into the new one. |
| WorkerProtocol.SetCellsBeforeInitIgnored | worker.js:184 | `setCells` before any `init` changes and posts nothing. |
| WorkerProtocol.TickBeforeInitStops | worker.js:27-30 | A tick with a grid size of 0 only clears the running flag. |
| WorkerProtocol.TickAdvances | worker.js:63-90 | Otherwise a tick increments the generation by exactly one, keeps the flag, and replaces the live set by the cells the rule keeps alive. |
| WorkerProtocol.StartBeforeInitRunsNothing | worker.js:27-111 | `start` before `init` sets the running flag, and the first tick stops the loop again with nothing else changed. |
| WorkerProtocol.CellsStayOnGrid | worker.js:127-234 | Every message except an `init` with an oversized array keeps the live set on the grid. |
| WorkerProtocol.TickStaysOnGrid | worker.js:25-104 | A tick keeps the live set on the grid. |
| Worker.GameWorker.constructor | worker.js:4-10 | The fields start as the script's initial values. |
| Worker.GameWorker.StartGameLoop | worker.js:107-116 | Performs `StartLoop` on the fields. |
| Worker.GameWorker.StopGameLoop | worker.js:117-123 | Performs `StopLoop` on the fields. |
| Worker.GameWorker.UpdateGameStateSparse | worker.js:25-104 | The fields make the specified tick transition, and the returned changes are a diff from the old live set to the new one (posted iff non-empty). |
| Worker.GameWorker.OnMessage | worker.js:127-234 | The fields and the posted changes are exactly what `HandleMessage` specifies for the message. |
| Worker.GameWorker.LoadRows | worker.js:148-157 | The nested loops add exactly the cells whose entry is `true` to the (empty) live set and touch no other field. |
| Worker.GameWorker.SetCells | worker.js:180-203 | The `forEach` updates the live set in place and collects the changes, exactly as the batch function specifies. Other fields are untouched. |
| RleDecoder.IsPySpace | resources/convertion/convert_rle.py:20 | `str.isspace()`, also what `\s` matches in the header pattern. |
| RleDecoder.StripStart | resources/convertion/convert_rle.py:20 | The left half of `line.strip()`: the line without its leading whitespace. |
| RleDecoder.StripEnd | resources/convertion/convert_rle.py:20 | The right half of `line.strip()`: the line without its trailing whitespace. |
| RleDecoder.Strip | resources/convertion/convert_rle.py:20 | `line.strip()`: both halves. |
| RleDecoder.HeaderDigits | resources/convertion/convert_rle.py:24 | The two digit groups the header regular expression `x = <digits> , y = <digits>` captures (optional spaces, matched at the start of the line, `x` and `y` in either case), or `None` when it does not match. |
| RleDecoder.HeaderMatches | resources/convertion/convert_rle.py:25 | The header regular expression matches. |
| RleDecoder.IntConverts | resources/convertion/convert_rle.py:26-27 | `int()` accepts a decimal string of at most 4300 digits, Python's default `sys.get_int_max_str_digits()`; a longer one raises `ValueError`. |
| RleDecoder.StripComments | resources/convertion/convert_rle.py:37 | `re.sub(r'#.*', '', line)`: the line up to its first `#`. |
| RleDecoder.ScanLine | resources/convertion/convert_rle.py:20-40 | One iteration of the line loop: blank and `#` lines are skipped, the first `x` line before the header must match and `int()` must convert both of its numbers, or the parse fails; lines after the header are data. |
| RleDecoder.ScanFrom | resources/convertion/convert_rle.py:19-40 | The line loop over a list of lines from a given scan state; a failed line ends it with `None`. |
| RleDecoder.ScanLines | resources/convertion/convert_rle.py:18-40 | The line loop from its initial state: no header yet, no data lines. |
| RleDecoder.Join | resources/convertion/convert_rle.py:46 | `"".join(data_lines)`: the data lines concatenated in order. |
| RleDecoder.Clean | resources/convertion/convert_rle.py:46 | Removes spaces, tabs, carriage returns and newlines from the joined data. |
| RleDecoder.Feed | resources/convertion/convert_rle.py:48-67 | One iteration of the character loop on the run-count cursor: a non-digit after a count `int()` rejects ends the loop in failure. |
| RleDecoder.Decode | resources/convertion/convert_rle.py:48-67 | The character loop over a string, stopping at the first `!`. |
| RleDecoder.ParsedCells | resources/convertion/convert_rle.py:6-77 | The value `parse_rle` returns: `None` when the line loop fails, finds no header, or the character loop meets a count `int()` rejects; otherwise the cells decoded from the cleaned, joined data lines. |
| RleDecoder.ParseRle | resources/convertion/convert_rle.py:6-77 | The parser's result is `ParsedCells` of the file's lines. |
| RleDecoder.ScanFileLines | resources/convertion/convert_rle.py:19-40 | The line loop finishes with the header flag and comment-stripped data lines that the line-by-line specification gives. On a malformed header, or one whose numbers `int()` rejects, it returns `None` at once. |
| RleDecoder.DecodeData | resources/convertion/convert_rle.py:47-67 | The character loop's result is that of the run-count cursor specification: `None` on a count `int()` rejects, otherwise the cells read up to the first `!`. |
| RleDecoder.AliveRun | resources/convertion/convert_rle.py:60-62 | An `o` run of `n` appends the cells `(x..x+n-1, y)` in order. |
| RleDecoder.DecodeDigits | resources/convertion/convert_rle.py:49-50 | Digits only accumulate into the pending run count; no cell and no position changes. |
| RleDecoder.MissingCountIsOne | resources/convertion/convert_rle.py:52-53 | A tag with no pending count acts as if the count were 1. |
| RleDecoder.UnexpectedCharacterDropsCount | resources/convertion/convert_rle.py:52-67 | An unknown character changes nothing except that it consumes the pending count, which still fails the parse when `int()` rejects it. |
| RleDecoder.OverlongCountFails | resources/convertion/convert_rle.py:52-57 | However it continues, data in which a non-digit follows a count of more than 4300 digits fails, and no cell is added. |
| RleDecoder.OverlongFileRejected | resources/convertion/convert_rle.py:54-57 | A file whose data line is such a count, `b` and `!` parses to `None`. |
| RleDecoder.NothingAfterEnd | resources/convertion/convert_rle.py:66 | Decoding stops at `!`: whatever follows is not read, and `!` adds no cells. |
| RleDecoder.DecodeAppend | resources/convertion/convert_rle.py:48-67 | Decoding a concatenation is decoding the first part and then continuing with the second. |
| RleDecoder.CleanRemovesAll | resources/convertion/convert_rle.py:46 | No space, tab, carriage return or newline is left in the data. |
| RleDecoder.RemovedCharacterIgnored | resources/convertion/convert_rle.py:46 | Inserting any of these characters anywhere in the data does not change the decoded cells: the output ignores line breaks and spaces in the body. |
| RleDecoder.CleanUnchanged | resources/convertion/convert_rle.py:46 | Data without such characters is left as it is. |
| RleDecoder.StripEndDropsSpaces | resources/convertion/convert_rle.py:20 | Right-stripping removes exactly a run of trailing whitespace. |
| RleDecoder.SpacesEndSkipsSpaces | resources/convertion/convert_rle.py:20 | Left-stripping removes exactly the leading whitespace. |
| RleDecoder.StripCommentsWithoutHash | resources/convertion/convert_rle.py:37 | A data line without `#` is kept whole. |
| RleDecoder.SkippedLineIgnored | resources/convertion/convert_rle.py:21-22 | A blank line or a `#` line anywhere in the file can be removed without changing the result. |
| RleDecoder.NoHeaderNoResult | resources/convertion/convert_rle.py:23-44 | A file with no line starting with `x` parses to `None`. |
| RleDecoder.ScanFailureIsFinal | resources/convertion/convert_rle.py:33-35 | Once a malformed header has ended the parse, later lines cannot revive it. |
| RleDecoder.ScanFromAppend | resources/convertion/convert_rle.py:19-40 | Scanning lines in two parts is scanning them in one pass. |
| RleDecoder.HeaderLineMatches | resources/convertion/convert_rle.py:24 | For every pair of naturals, the header `x = W, y = H` matches the header pattern and captures the decimal forms of `W` and `H`. |
| RleDecoder.HeaderShapeMatches | resources/convertion/convert_rle.py:24 | `x = ` digits `, y = ` digits matches the header pattern and captures the two digit strings, for any non-empty digit strings. |
| RleDecoder.HeaderLineScanned | resources/convertion/convert_rle.py:23-35 | The line loop accepts the header `x = W, y = H` exactly when `int()` converts both numbers, and fails otherwise. |
| RleDecoder.HeaderThenDataScanned | resources/convertion/convert_rle.py:19-40 | A header with convertible numbers followed by a line of RLE characters leaves that line as the only data line. |
| RleDecoder.DecodeTokenText | resources/convertion/convert_rle.py:49-65 | A count `int()` converts, followed by `b`, `o` or `$`, moves the cursor, or adds cells, by that count. |
| RleDecoder.DecodeEncodedTokens | resources/convertion/convert_rle.py:47-65 | Decoding the text of a list of runs whose counts `int()` converts appends exactly the cells the runs describe, without failing. |
| RleDecoder.DecodeEncodedPattern | resources/convertion/convert_rle.py:47-66 | The decoder inverts the run-length encoder on runs whose counts have at most 4300 digits, and the final `!` stops it without failure. |
| RleDecoder.EncodedFileRoundTrip | resources/convertion/convert_rle.py:6-77 | A file made of a header line and an encoded data line parses to exactly the encoded cells, provided `int()` converts the header's numbers and every count (at most 4300 digits each). |
| Patterns.AddPattern | script.js:70-72 | `addPattern` returns a list of the same length, with each coordinate moved by the offset. |
| Patterns.AddPatternInverse | script.js:70-72 | Moving by an offset and then by its negation gives the pattern back. |
| Patterns.AddPatternCompose | script.js:70-72 | Two moves equal one move by the summed offsets. |
| Patterns.NextIndex | script.js:78-80 | The next index stays in `[0, len)`. It is one more, except that it wraps from the last index to 0. |
| Patterns.Cycled | script.js:78-80 | The index after `k` calls of `cycleToNextPattern`; it stays in `[0, len)`. |
| Patterns.CycledIsResidue | script.js:78-80 | `k` calls of `cycleToNextPattern` move the index to `(i + k) mod len`. |
| Patterns.FullCycleReturns | script.js:78-80 | A full round of `len` calls returns to the starting pattern. |
| Patterns.PatternManager.constructor | script.js:66-67 | The cycle list is the six names in order, and the index starts at 0 (`glider`). |
| Patterns.PatternManager.GetCurrentPatternName | script.js:82-84 | Returns an entry of the cycle list: the one at the current index. |
| Patterns.PatternManager.GetCurrentPattern | script.js:74-76 | Returns the table entry for the current name, and nothing (`undefined`) exactly when the table has no such entry. |
| Patterns.PatternManager.CycleToNextPattern | script.js:78-80 | Advances the index to `NextIndex`, which keeps it valid. The table and the list are unchanged. |
| Patterns.GridWrap | script.js:404-405 | The position `((x + GRID_SIZE_X) % GRID_SIZE_X, (y + GRID_SIZE_Y) % GRID_SIZE_Y)` that both the pattern stamp and the initial grid compute. |
| Patterns.SpamCell | script.js:403-407 | The request built for one pattern cell: single-wrapped coordinates, `alive: true`. |
| Patterns.PlaceSpamPattern | script.js:399-408 | No batch when there is no current pattern, otherwise the mapped batch. |
| Patterns.SpamCells | script.js:403-407 | One `alive: true` request per pattern cell, in order, each with single-wrapped coordinates. |
| Patterns.SpamCellOnGrid | script.js:403-407 | A spam request passes the worker's bounds check iff both sums `gridX + p.x` and `gridY + p.y` are at least minus the grid size (or a multiple of it). It then names the toroidal position. |
| Patterns.SpamPlacesPattern | script.js:399-408 | Without a current pattern nothing is sent. Otherwise, sent to the worker on the configured 1600 by 560 grid, the batch adds exactly the toroidal positions of those pattern cells, and removes nothing. |
| Patterns.AllAliveBatch | worker.js:182-203 | A batch that only asks for live cells adds exactly the cells it names on the grid. |
| Patterns.FarLeftSpamDropped | script.js:404 | With the pointer 1601 cells left of the grid, the wrapped x is negative and the worker drops the cell. |
| DenseMirror.Placed | script.js:576-579 | The wrapped position is an element of the array: the row exists and the column is not negative. |
| DenseMirror.PlacedCells | script.js:575-581 | The cells the `forEach` over the initial pattern sets to `true`. |
| DenseMirror.PlacedCellsAreTorusImage | script.js:575-581 | The cells the pattern loop sets `true` are exactly the residues of the pattern cells whose coordinates are at least minus the grid size (or a multiple of it). They all lie on the grid. |
| DenseMirror.BuildInitialState | script.js:573-581 | Builds a fresh `GRID_SIZE_Y` by `GRID_SIZE_X` array that is `true` exactly at the wrapped pattern positions. |
| DenseMirror.Snapshot | script.js:585-593 | The `initialGameState` the worker receives: a structured clone of the array, row by row, with the array's dimensions and entries. |
| DenseMirror.SnapshotCells | worker.js:148-157 | The worker's `init` loops read back from a mirroring array exactly the live cells it shows. |
| DenseMirror.InitializeWorker | script.js:558-593 | A new worker is created and sent the built grid with `init`. Its state is then what `init` makes of the initial state: the toroidal image of the pattern on the 1600 by 560 grid, stopped, speed 100, generation 0. The array mirrors that live set. |
| DenseMirror.ApplyStateChanges | script.js:562-570 | Each entry of the array ends with the last change to its cell, or keeps its value if no change names it. |
| DenseMirror.ApplyReplayingChanges | script.js:562-570 | Applying a change log that replays the old live set into the new one turns a mirror of the old set into a mirror of the new one. |
| DenseMirror.MessageChangesReplay | worker.js:168-232 | For every message other than `init`, what the worker posts replays its old live set into its new one. |
| DenseMirror.TickAndRedraw | worker.js:25-104 | A worker tick followed by the main thread applying its `stateChanges` keeps the array an exact image of the live set, now at the next generation. |
| DenseMirror.MessageAndRedraw | worker.js:127-234 | Any message other than `init`, with its posted changes applied, keeps the array an exact image of the worker's live set. |

## Left out

- Timers. `setInterval`/`clearInterval`, `intervalId` and the tick cadence are not modelled. Running is a boolean, and a tick is an explicit call of `UpdateGameStateSparse`. The race between `stop` and an already queued tick is out of scope too.
- Transport. The `postMessage` transport and its `try`/`catch` (a failed post stops the loop) are left out: posting always succeeds. A tick or a `setCells` returns its change list, which is posted iff it is non-empty.
- Logging. `console` output is left out throughout.
- Numbers. Message and pattern numbers are integers. Fractional coordinates, `NaN`, and speeds or grid sizes that are not integers are not modelled. A request that is not a well-formed object with numeric `x`/`y` and boolean `alive` becomes `Malformed`.
- Number size. Coordinates, sizes and counts are unbounded integers. JavaScript numbers are exact only below 2^53 in magnitude, and `${x}` switches to exponent form from 10^21. The model assumes safe integers throughout. Coordinates in the worker stay within the grid size, far below either bound.
- CoordKeys.CoordKey: renders every integer in plain decimal. For magnitudes of 10^21 and above, JavaScript would write exponent form (`"1e+21"`), which `parseKey` would misread. Keys are only made from in-grid coordinates, so this cannot happen.
- CoordKeys.ParseInt: skips only the ASCII and Latin-1 whitespace (space, tab, line feed, carriage return, vertical tab, form feed, no-break space), not the other Unicode space separators and U+FEFF that `parseInt` also skips. Keys made by `coordKey` contain no whitespace at all.
- Set iteration order. The order of `stateChanges` entries follows JavaScript `Set` iteration, so the model states the change list by its meaning (`IsDiff`) rather than by its order.
- Out-of-range writes. Writes outside a JavaScript array's elements are not modelled:
  - A `stateChanges` entry whose row exists but whose column is negative or past the row's end would add a property or lengthen the row in the source; the model writes nothing.
  - In the initial grid, a negative wrapped column sets a property that neither the worker nor the drawing code reads, and the model leaves that cell `false` likewise.
  - Entries of a worker diff always lie on the grid unless an oversized `init` put cells off it.
- UI. Everything in `script.js` outside `PatternManager`, `placeSpamPattern` and the worker setup is left out: `ViewManager` (floating-point zoom and pan), the renderers, input handling, resizing and DOM wiring. `placeSpamPattern` takes the pointer's grid cell `(gridX, gridY)` as parameters instead of computing it from the mouse and the view.
- Pattern loading and tables. `loadPatternFiles` (`fetch`/JSON I/O) and the static pattern coordinate tables are left out. The `PatternManager` constructor takes the table as a parameter.
- RLE file handling. Opening the file, the path clean-up, `input()`, the JSON output and all printing are left out. `ParseRle` takes the file as a list of lines.
- RLE header values. The header's `rule` group and the `width`/`height` values are not modelled: the parser records them but does not use them. Only whether `int()` converts the two numbers is kept, since a failed conversion makes the parse return `None`.
- RLE digits. `\d`, `str.isdigit` and `int()` are read as ASCII digits only. The `ValueError` that `int()` raises on a string of more than 4300 digits (`IntConverts`) is modelled, for the header numbers and the run counts. Non-ASCII characters that `str.isdigit` accepts and `int()` rejects (superscript digits, for instance) are not: the model treats them as unexpected characters. The limit is Python's default; a program that changes it with `sys.set_int_max_str_digits` is not modelled.
- RLE case folding. The header pattern's case-insensitive matching is modelled only for the letters `x` and `y` it contains.
- Patterns.PatternManager.GetCurrentPattern: a name that is not a key of the table is `undefined`. Names inherited from `Object.prototype` are not modelled.
