/** `parse_rle` of the RLE-to-JSON converter (resources/convertion/convert_rle.py): find the
    `x = …, y = …` header, gather the data lines after it, and decode the run-length data into
    the list of live cell coordinates. The file is given as its sequence of lines. */
module RleDecoder {
  import opened Common
  import opened Decimal

  // ---- Python string primitives ----

  /** `str.isspace()`, which is also what the pattern `\s` matches in a `str` pattern. */
  predicate IsPySpace(c: char)
  {
    ('\t' <= c <= '\r') || ('\U{001C}' <= c <= ' ') || c == '\U{0085}' || c == '\U{00A0}' || c == '\U{1680}'
    || ('\U{2000}' <= c <= '\U{200A}') || c == '\U{2028}' || c == '\U{2029}' || c == '\U{202F}'
    || c == '\U{205F}' || c == '\U{3000}'
  }

  /** The first position at or after `i` that does not hold whitespace: where a greedy `\s*`
      started at `i` stops. */
  function SpacesEnd(s: string, i: nat): (j: nat)
    requires i <= |s|
    ensures i <= j <= |s|
    ensures j == |s| || !IsPySpace(s[j])
    decreases |s| - i
  {
    if i < |s| && IsPySpace(s[i]) then SpacesEnd(s, i + 1) else i
  }

  /** A greedy `\s*` consumes whitespace only, and all of it. */
  lemma {:induction false} SpacesEndSkipsSpaces(s: string, i: nat)
    requires i <= |s|
    ensures forall k | i <= k < SpacesEnd(s, i) :: IsPySpace(s[k])
    decreases |s| - i
  {
    if i < |s| && IsPySpace(s[i]) {
      SpacesEndSkipsSpaces(s, i + 1);
    }
  }

  /** `s.lstrip()`. */
  function StripStart(s: string): (r: string)
    ensures r == [] || !IsPySpace(r[0])
  {
    s[SpacesEnd(s, 0)..]
  }

  /** `s.rstrip()`. */
  function StripEnd(s: string): (r: string)
    ensures |r| <= |s|
    ensures r == [] || !IsPySpace(r[|r| - 1])
  {
    if s != [] && IsPySpace(s[|s| - 1]) then StripEnd(s[..|s| - 1]) else s
  }

  /** `rstrip()` removes exactly the trailing whitespace. */
  lemma {:induction false} StripEndDropsSpaces(s: string)
    ensures var r := StripEnd(s);
      r == s[..|r|] && forall i | |r| <= i < |s| :: IsPySpace(s[i])
  {
    if s != [] && IsPySpace(s[|s| - 1]) {
      StripEndDropsSpaces(s[..|s| - 1]);
    }
  }

  /** `s.strip()`. */
  function Strip(s: string): string
  {
    StripEnd(StripStart(s))
  }

  /** A string that neither starts nor ends with whitespace is its own `strip()`. */
  lemma StripUnchanged(s: string)
    requires s != [] && !IsPySpace(s[0]) && !IsPySpace(s[|s| - 1])
    ensures Strip(s) == s
  {
  }

  // ---- The header line ----

  /** The first position at or after `i` that does not hold an ASCII digit: where a greedy
      `\d+` started at `i` stops (it matched when that is past `i`). */
  function DigitsEnd(s: string, i: nat): (j: nat)
    requires i <= |s|
    ensures i <= j <= |s|
    ensures j == |s| || !IsDigit(s[j])
    decreases |s| - i
  {
    if i < |s| && IsDigit(s[i]) then DigitsEnd(s, i + 1) else i
  }

  /** Position `i` holds `lower` or `upper` (one letter under `re.IGNORECASE`). */
  predicate LetterAt(s: string, i: nat, lower: char, upper: char)
  {
    i < |s| && (s[i] == lower || s[i] == upper)
  }

  /** The two digit groups `re.match(r'x\s*=\s*(\d+)\s*,\s*y\s*=\s*(\d+)(?:…)?', line,
      re.IGNORECASE)` captures, or `None` when it does not match. The pattern is matched left to
      right: a greedy repetition never has to give characters back, since what follows it cannot
      start with a character it consumed, and the optional `rule` group never makes the match
      fail. */
  function HeaderDigits(line: string): Option<(string, string)>
  {
    if !LetterAt(line, 0, 'x', 'X') then None
    else
      var eq := SpacesEnd(line, 1);
      if !LetterAt(line, eq, '=', '=') then None
      else
        var width := SpacesEnd(line, eq + 1);
        var widthEnd := DigitsEnd(line, width);
        var comma := SpacesEnd(line, widthEnd);
        if width == widthEnd || !LetterAt(line, comma, ',', ',') then None
        else
          var y := SpacesEnd(line, comma + 1);
          if !LetterAt(line, y, 'y', 'Y') then None
          else
            var eq2 := SpacesEnd(line, y + 1);
            if !LetterAt(line, eq2, '=', '=') then None
            else
              var height := SpacesEnd(line, eq2 + 1);
              var heightEnd := DigitsEnd(line, height);
              if height == heightEnd then None
              else Some((line[width..widthEnd], line[height..heightEnd]))
  }

  predicate HeaderMatches(line: string)
  {
    HeaderDigits(line).Some?
  }

  /** Python's default limit on the length of a decimal string that `int()` converts
      (`sys.get_int_max_str_digits()`); a longer one raises `ValueError`. */
  const IntMaxStrDigits: nat := 4300

  /** `int(digits)` succeeds on a string of ASCII digits. */
  predicate IntConverts(digits: string)
  {
    |digits| <= IntMaxStrDigits
  }

  /** The canonical header for a `width` by `height` pattern. */
  function HeaderLine(width: nat, height: nat): string
  {
    "x = " + NatToDecimal(width) + ", y = " + NatToDecimal(height)
  }

  /** `re.sub(r'#.*', '', s)`: every `#` and the rest of its line (up to a newline) go. */
  function StripComments(s: string): (r: string)
    ensures |r| <= |s|
    ensures forall i | 0 <= i < |r| :: r[i] != '#'
    decreases |s|
  {
    if s == [] then []
    else if s[0] == '#' then StripComments(RestFromNewline(s[1..]))
    else [s[0]] + StripComments(s[1..])
  }

  /** The part of `s` from its first newline on (empty when there is none). */
  function RestFromNewline(s: string): (r: string)
    ensures |r| <= |s|
  {
    if s == [] || s[0] == '\n' then s else RestFromNewline(s[1..])
  }

  lemma {:induction false} StripCommentsWithoutHash(s: string)
    requires forall i | 0 <= i < |s| :: s[i] != '#'
    ensures StripComments(s) == s
  {
    if s != [] {
      StripCommentsWithoutHash(s[1..]);
    }
  }

  // ---- The line loop ----

  /** What the line loop has gathered: whether the header was seen, and the data lines. */
  datatype LineScan = LineScan(headerFound: bool, dataLines: seq<string>)

  /** One line: blank lines and `#` lines are skipped; the first line starting with `x` must be
      a header whose two numbers `int()` converts (otherwise the parse fails, `None`); after the header every line is data with its
      comments removed; other lines before the header are skipped. */
  function ScanLine(st: LineScan, raw: string): Option<LineScan>
  {
    var line := Strip(raw);
    if line == [] then Some(st)
    else if line[0] == '#' then Some(st)
    else if !st.headerFound && line[0] == 'x' then
      match HeaderDigits(line)
      case None => None
      case Some((width, height)) =>
        if IntConverts(width) && IntConverts(height) then Some(st.(headerFound := true)) else None
    else if st.headerFound then Some(st.(dataLines := st.dataLines + [StripComments(line)]))
    else Some(st)
  }

  /** The line loop over `lines`, from `st`. */
  function ScanFrom(st: LineScan, lines: seq<string>): Option<LineScan>
  {
    if lines == [] then Some(st)
    else
      match ScanFrom(st, lines[..|lines| - 1])
      case None => None
      case Some(st') => ScanLine(st', lines[|lines| - 1])
  }

  function ScanLines(lines: seq<string>): Option<LineScan>
  {
    ScanFrom(LineScan(false, []), lines)
  }

  /** `"".join(lines)`. */
  function Join(lines: seq<string>): string
  {
    if lines == [] then [] else Join(lines[..|lines| - 1]) + lines[|lines| - 1]
  }

  /** The characters the converter deletes from the joined data. */
  predicate IsRemoved(c: char)
  {
    c == ' ' || c == '\t' || c == '\r' || c == '\n'
  }

  /** `.replace(" ", "").replace("\t", "").replace("\r", "").replace("\n", "")`. */
  function Clean(s: string): (r: string)
    ensures |r| <= |s|
  {
    if s == [] then [] else (if IsRemoved(s[0]) then [] else [s[0]]) + Clean(s[1..])
  }

  /** None of the deleted characters is left. */
  lemma {:induction false} CleanRemovesAll(s: string)
    ensures forall i | 0 <= i < |Clean(s)| :: !IsRemoved(Clean(s)[i])
  {
    if s != [] {
      CleanRemovesAll(s[1..]);
      var head := if IsRemoved(s[0]) then [] else [s[0]];
      forall i | 0 <= i < |Clean(s)|
        ensures !IsRemoved(Clean(s)[i])
      {
        if i >= |head| {
          assert Clean(s)[i] == Clean(s[1..])[i - |head|];
        }
      }
    }
  }

  // ---- The character loop ----

  /** The character loop's variables: the cells found so far, the position, the pending run
      count digits, whether the loop has ended (at `!` or on a count `int()` rejects), and
      whether it ended on such a count, which makes `parse_rle` return `None`. */
  datatype Cursor = Cursor(cells: seq<Point>, x: int, y: int, run: string, stopped: bool, failed: bool)

  function StartCursor(): Cursor
  {
    Cursor([], 0, 0, [], false, false)
  }

  /** The `n` cells of a run of live cells starting at `(x, y)`. */
  function AliveRun(x: int, y: int, n: nat): (r: seq<Point>)
    ensures |r| == n && forall i | 0 <= i < n :: r[i] == Point(x + i, y)
  {
    seq(n, i => Point(x + i, y))
  }

  /** One character: a digit extends the run count; any other character consumes the count
      (1 when there is none, and the parse fails when `int()` rejects it) and `b` skips dead cells, `o` adds live cells, `$` moves down and
      back to column 0, `!` stops, and anything else is ignored. */
  function Feed(cur: Cursor, c: char): (r: Cursor)
    requires AllDigits(cur.run)
    ensures AllDigits(r.run)
  {
    if IsDigit(c) then cur.(run := cur.run + [c])
    else if !IntConverts(cur.run) then cur.(stopped := true, failed := true)
    else
      var count := if cur.run != [] then DigitsValue(cur.run) else 1;
      var consumed := cur.(run := []);
      if c == 'b' then consumed.(x := cur.x + count)
      else if c == 'o' then consumed.(cells := cur.cells + AliveRun(cur.x, cur.y, count), x := cur.x + count)
      else if c == '$' then consumed.(y := cur.y + count, x := 0)
      else if c == '!' then consumed.(stopped := true)
      else consumed
  }

  /** The character loop over `data`, from `cur`; nothing after `!` is read. */
  function Decode(cur: Cursor, data: string): (r: Cursor)
    requires AllDigits(cur.run)
    ensures AllDigits(r.run)
    decreases |data|
  {
    if data == [] || cur.stopped then cur else Decode(Feed(cur, data[0]), data[1..])
  }

  /** What `parse_rle` returns for a file with these lines. */
  function ParsedCells(lines: seq<string>): Option<seq<Point>>
  {
    match ScanLines(lines)
    case None => None
    case Some(st) =>
      if !st.headerFound then None
      else
        var decoded := Decode(StartCursor(), Clean(Join(st.dataLines)));
        if decoded.failed then None else Some(decoded.cells)
  }

  /** `parse_rle`, with the file given as its lines. */
  method ParseRle(lines: seq<string>) returns (result: Option<seq<Point>>)
    ensures result == ParsedCells(lines)
  {
    var scan := ScanFileLines(lines);
    if scan.None? {
      return None;
    }
    if !scan.value.headerFound {
      return None;
    }
    var fullData := Clean(Join(scan.value.dataLines));
    result := DecodeData(fullData);
  }

  /** The loop over the file's lines; `None` when it returns early on a malformed header. */
  method ScanFileLines(lines: seq<string>) returns (scan: Option<LineScan>)
    ensures scan == ScanLines(lines)
  {
    var headerFound := false;
    var dataLines: seq<string> := [];
    var i := 0;
    while i < |lines|
      invariant 0 <= i <= |lines|
      invariant ScanLines(lines[..i]) == Some(LineScan(headerFound, dataLines))
    {
      ghost var st := LineScan(headerFound, dataLines);
      ScanNextLine(lines, i, st);
      var line := Strip(lines[i]);
      if line == [] {
      } else if line[0] == '#' {
      } else if !headerFound && line[0] == 'x' {
        var groups := HeaderDigits(line);
        if groups.Some? && IntConverts(groups.value.0) && IntConverts(groups.value.1) {
          headerFound := true;
        } else {
          ScanFailsAt(lines, i);
          return None;
        }
      } else if headerFound {
        dataLines := dataLines + [StripComments(line)];
      }
      i := i + 1;
    }
    assert lines[..i] == lines;
    return Some(LineScan(headerFound, dataLines));
  }

  /** The loop over the characters of the cleaned data, leaving it at `!`; `None` when it
      returns early on a run count `int()` rejects. */
  method DecodeData(fullData: string) returns (result: Option<seq<Point>>)
    ensures var decoded := Decode(StartCursor(), fullData);
      result == if decoded.failed then None else Some(decoded.cells)
  {
    var liveCells := [];
    var currentX := 0;
    var currentY := 0;
    var runCountStr: string := [];
    var j := 0;
    while j < |fullData|
      invariant 0 <= j <= |fullData|
      invariant AllDigits(runCountStr)
      invariant Decode(Cursor(liveCells, currentX, currentY, runCountStr, false, false), fullData[j..]) == Decode(StartCursor(), fullData)
    {
      ghost var cur := Cursor(liveCells, currentX, currentY, runCountStr, false, false);
      var c := fullData[j];
      DecodeStep(cur, fullData, j);
      if IsDigit(c) {
        runCountStr := runCountStr + [c];
      } else {
        var count := 1;
        if runCountStr != [] {
          if !IntConverts(runCountStr) {
            return None;
          }
          count := DigitsValue(runCountStr);
          runCountStr := [];
        }
        if c == 'b' {
          currentX := currentX + count;
        } else if c == 'o' {
          var k := 0;
          while k < count
            invariant 0 <= k <= count
            invariant liveCells == cur.cells + AliveRun(currentX, currentY, k)
          {
            AliveRunNext(currentX, currentY, k);
            liveCells := liveCells + [Point(currentX + k, currentY)];
            k := k + 1;
          }
          currentX := currentX + count;
        } else if c == '$' {
          currentY := currentY + count;
          currentX := 0;
        } else if c == '!' {
          assert Feed(cur, c) == Cursor(liveCells, currentX, currentY, runCountStr, true, false);
          break;
        }
      }
      assert Cursor(liveCells, currentX, currentY, runCountStr, false, false) == Feed(cur, c);
      j := j + 1;
    }
    return Some(liveCells);
  }

  /** One iteration of the character loop: the rest of the data decodes from the cursor after
      the current character, and nothing is read once it stops. */
  lemma DecodeStep(cur: Cursor, data: string, j: int)
    requires AllDigits(cur.run) && !cur.stopped && 0 <= j < |data|
    ensures Decode(cur, data[j..]) == Decode(Feed(cur, data[j]), data[j + 1..])
    ensures Feed(cur, data[j]).stopped ==> Decode(cur, data[j..]) == Feed(cur, data[j])
  {
    assert data[j..][1..] == data[j + 1..];
  }

  lemma AliveRunNext(x: int, y: int, k: nat)
    ensures AliveRun(x, y, k + 1) == AliveRun(x, y, k) + [Point(x + k, y)]
  {
  }

  lemma ScanNextLine(lines: seq<string>, i: int, st: LineScan)
    requires 0 <= i < |lines| && ScanLines(lines[..i]) == Some(st)
    ensures ScanLines(lines[..i + 1]) == ScanLine(st, lines[i])
  {
    assert lines[..i + 1][..i] == lines[..i];
  }

  lemma ScanFailsAt(lines: seq<string>, i: int)
    requires 0 <= i < |lines| && ScanLines(lines[..i + 1]) == None
    ensures ScanLines(lines) == None
  {
    ScanFailureIsFinal(LineScan(false, []), lines[..i + 1], lines[i + 1..]);
    assert lines[..i + 1] + lines[i + 1..] == lines;
  }

  lemma {:induction false} ScanFailureIsFinal(st: LineScan, a: seq<string>, b: seq<string>)
    requires ScanFrom(st, a) == None
    ensures ScanFrom(st, a + b) == None
  {
    if b == [] {
      assert a + b == a;
    } else {
      assert (a + b)[..|a + b| - 1] == a + b[..|b| - 1];
      ScanFailureIsFinal(st, a, b[..|b| - 1]);
    }
  }

  // ---- Properties of the decoder ----

  /** Decoding is a left fold: decoding `a + b` is decoding `b` after `a`. */
  lemma {:induction false} DecodeAppend(cur: Cursor, a: string, b: string)
    requires AllDigits(cur.run)
    ensures Decode(cur, a + b) == Decode(Decode(cur, a), b)
    decreases |a|
  {
    if a == [] {
      assert a + b == b;
    } else if !cur.stopped {
      assert (a + b)[1..] == a[1..] + b;
      DecodeAppend(Feed(cur, a[0]), a[1..], b);
    }
  }

  /** Digits only accumulate into the pending run count. */
  lemma {:induction false} DecodeDigits(cur: Cursor, d: string)
    requires AllDigits(cur.run) && AllDigits(d) && !cur.stopped
    ensures Decode(cur, d) == cur.(run := cur.run + d)
    decreases |d|
  {
    if d == [] {
      assert cur.run + d == cur.run;
    } else {
      DecodeDigits(Feed(cur, d[0]), d[1..]);
      assert cur.run + [d[0]] + d[1..] == cur.run + d;
    }
  }

  /** A letter without a count means a count of 1. */
  lemma MissingCountIsOne(cur: Cursor, c: char)
    requires cur.run == [] && !IsDigit(c)
    ensures Feed(cur, c) == Feed(cur.(run := "1"), c)
  {
    assert DigitsValue("1") == 1 by {
      assert "1"[..0] == [];
    }
  }

  /** A character outside the alphabet is skipped, but the count in front of it is lost (and
      still converted, so a count `int()` rejects fails the parse here too). */
  lemma UnexpectedCharacterDropsCount(cur: Cursor, c: char)
    requires AllDigits(cur.run) && !IsDigit(c) && c != 'b' && c != 'o' && c != '$' && c != '!'
    ensures IntConverts(cur.run) ==> Feed(cur, c) == cur.(run := [])
    ensures !IntConverts(cur.run) ==> Feed(cur, c) == cur.(stopped := true, failed := true)
  {
  }

  /** A run count longer than `int()` accepts ends the parse in failure at the next non-digit,
      whatever that character is; the digits alone never fail. */
  lemma {:induction false} OverlongCountFails(cur: Cursor, digits: string, c: char, rest: string)
    requires AllDigits(cur.run) && !cur.stopped && AllDigits(digits) && !IsDigit(c)
    requires !IntConverts(cur.run + digits)
    ensures var r := Decode(cur, digits + [c] + rest);
      r.failed && r.cells == cur.cells
  {
    DecodeAppend(cur, digits, [c] + rest);
    DecodeDigits(cur, digits);
    assert ([c] + rest)[1..] == rest;
    assert digits + [c] + rest == digits + ([c] + rest);
  }

  /** For instance a `b` preceded by 4301 ones. */
  lemma OverlongFileRejected(width: nat, height: nat, digits: string)
    requires IntConverts(NatToDecimal(width)) && IntConverts(NatToDecimal(height))
    requires AllDigits(digits) && !IntConverts(digits)
    ensures ParsedCells([HeaderLine(width, height), digits + "b!"]) == None
  {
    var data := digits + "b!";
    assert AllDigits(data[..|digits|]) by {
      assert data[..|digits|] == digits;
    }
    assert forall i | 0 <= i < |data| :: InAlphabet(data[i]) by {
      forall i | 0 <= i < |data|
        ensures InAlphabet(data[i])
      {
        if i < |digits| {
          assert data[i] == digits[i];
        }
      }
    }
    assert data[0] == digits[0];
    assert ScanLines([HeaderLine(width, height), data]) == Some(LineScan(true, [data])) by {
      HeaderThenDataScanned(width, height, data);
    }
    assert Clean(Join([data])) == data by {
      assert [data][..0] == [];
      assert Join([data]) == data;
      CleanUnchanged(data);
    }
    OverlongCountFails(StartCursor(), digits, 'b', "!");
    assert digits + ['b'] + "!" == data;
  }

  /** Nothing after `!` is read. */
  lemma NothingAfterEnd(cur: Cursor, rest: string)
    requires AllDigits(cur.run) && !cur.stopped
    ensures Decode(cur, "!" + rest) == Decode(cur, "!")
    ensures Decode(cur, "!").stopped && Decode(cur, "!").cells == cur.cells
  {
    assert ("!" + rest)[1..] == rest;
  }

  /** The deleted characters can be inserted anywhere in the data without effect. */
  lemma {:induction false} CleanAppend(a: string, b: string)
    ensures Clean(a + b) == Clean(a) + Clean(b)
  {
    if a != [] {
      var head := if IsRemoved(a[0]) then [] else [a[0]];
      assert (a + b)[1..] == a[1..] + b;
      assert Clean(a + b) == head + Clean(a[1..] + b);
      CleanAppend(a[1..], b);
      assert head + (Clean(a[1..]) + Clean(b)) == (head + Clean(a[1..])) + Clean(b);
    } else {
      assert a + b == b;
    }
  }

  lemma RemovedCharacterIgnored(a: string, w: char, b: string)
    requires IsRemoved(w)
    ensures Clean(a + [w] + b) == Clean(a + b)
  {
    CleanAppend(a + [w], b);
    CleanAppend(a, [w]);
    CleanAppend(a, b);
  }

  lemma {:induction false} CleanUnchanged(s: string)
    requires forall i | 0 <= i < |s| :: !IsRemoved(s[i])
    ensures Clean(s) == s
  {
    if s != [] {
      CleanUnchanged(s[1..]);
    }
  }

  // ---- Properties of the line loop ----

  /** The line loop is a left fold too. */
  lemma {:induction false} ScanFromAppend(st: LineScan, a: seq<string>, b: seq<string>)
    ensures ScanFrom(st, a + b) == (match ScanFrom(st, a) case None => None case Some(st') => ScanFrom(st', b))
  {
    if b == [] {
      assert a + b == a;
    } else {
      assert (a + b)[..|a + b| - 1] == a + b[..|b| - 1];
      ScanFromAppend(st, a, b[..|b| - 1]);
    }
  }

  /** Blank lines and `#` lines, wherever they stand, do not affect the result. */
  lemma SkippedLineIgnored(a: seq<string>, line: string, b: seq<string>)
    requires Strip(line) == [] || Strip(line)[0] == '#'
    ensures ParsedCells(a + [line] + b) == ParsedCells(a + b)
  {
    var init := LineScan(false, []);
    ScanFromAppend(init, a + [line], b);
    ScanFromAppend(init, a, [line]);
    ScanFromAppend(init, a, b);
    assert [line][..0] == [];
  }

  /** Without a line that starts with `x` there is no header, and the parse fails. */
  lemma {:induction false} NoHeaderScan(lines: seq<string>)
    requires forall i | 0 <= i < |lines| :: Strip(lines[i]) == [] || Strip(lines[i])[0] != 'x'
    ensures ScanLines(lines).Some? ==> !ScanLines(lines).value.headerFound
  {
    if lines != [] {
      NoHeaderScan(lines[..|lines| - 1]);
    }
  }

  lemma NoHeaderNoResult(lines: seq<string>)
    requires forall i | 0 <= i < |lines| :: Strip(lines[i]) == [] || Strip(lines[i])[0] != 'x'
    ensures ParsedCells(lines) == None
  {
    NoHeaderScan(lines);
  }

  // ---- A reference meaning, and the round trip through it ----

  /** A run of the RLE format: `n` dead cells, `n` live cells, or `n` row ends. */
  datatype Token = Dead(n: nat) | Alive(n: nat) | RowEnds(n: nat)

  /** Every count of the runs is written with few enough digits for `int()`. */
  predicate CountsConvert(tokens: seq<Token>)
  {
    forall i | 0 <= i < |tokens| :: IntConverts(NatToDecimal(tokens[i].n))
  }

  /** The cells a token list describes when it starts at `(x, y)`. */
  function Expand(tokens: seq<Token>, x: int, y: int): seq<Point>
  {
    if tokens == [] then []
    else
      match tokens[0]
      case Dead(n) => Expand(tokens[1..], x + n, y)
      case Alive(n) => AliveRun(x, y, n) + Expand(tokens[1..], x + n, y)
      case RowEnds(n) => Expand(tokens[1..], 0, y + n)
  }

  function TokenLetter(t: Token): char
  {
    match t
    case Dead(_) => 'b'
    case Alive(_) => 'o'
    case RowEnds(_) => '$'
  }

  /** A run written with its count. */
  function TokenText(t: Token): string
  {
    NatToDecimal(t.n) + [TokenLetter(t)]
  }

  /** Every run written with its count. */
  function EncodeTokens(tokens: seq<Token>): string
  {
    if tokens == [] then [] else TokenText(tokens[0]) + EncodeTokens(tokens[1..])
  }

  /** The data line of a pattern: its runs and the final `!`. */
  function EncodePattern(tokens: seq<Token>): string
  {
    EncodeTokens(tokens) + "!"
  }

  predicate InAlphabet(c: char)
  {
    IsDigit(c) || c == 'b' || c == 'o' || c == '$' || c == '!'
  }

  lemma {:induction false} EncodedAlphabet(tokens: seq<Token>)
    ensures forall i | 0 <= i < |EncodeTokens(tokens)| :: InAlphabet(EncodeTokens(tokens)[i]) && EncodeTokens(tokens)[i] != '!'
    ensures tokens != [] ==> IsDigit(EncodeTokens(tokens)[0])
  {
    if tokens != [] {
      EncodedAlphabet(tokens[1..]);
      var d := NatToDecimal(tokens[0].n);
      var e := TokenText(tokens[0]) + EncodeTokens(tokens[1..]);
      assert e == d + [TokenLetter(tokens[0])] + EncodeTokens(tokens[1..]);
      forall i | 0 <= i < |e|
        ensures InAlphabet(e[i]) && e[i] != '!'
      {
        if i < |d| {
          assert e[i] == d[i];
        } else if i > |d| {
          assert e[i] == EncodeTokens(tokens[1..])[i - |d| - 1];
        }
      }
    }
  }

  /** The effect of a run on the cursor. */
  ghost predicate RunApplied(before: Cursor, t: Token, after: Cursor)
  {
    && after.run == [] && !after.stopped && !after.failed
    && (t.Dead? ==> after.cells == before.cells && after.x == before.x + t.n && after.y == before.y)
    && (t.Alive? ==> after.cells == before.cells + AliveRun(before.x, before.y, t.n) && after.x == before.x + t.n && after.y == before.y)
    && (t.RowEnds? ==> after.cells == before.cells && after.x == 0 && after.y == before.y + t.n)
  }

  /** The letter of a run, read with the run's count pending. */
  lemma FeedTokenLetter(cur: Cursor, t: Token)
    requires AllDigits(cur.run) && cur.run != [] && IntConverts(cur.run) && DigitsValue(cur.run) == t.n
    requires !cur.stopped && !cur.failed
    ensures RunApplied(cur, t, Feed(cur, TokenLetter(t)))
  {
  }

  /** Decoding one written run from a cursor with no pending count. */
  lemma DecodeTokenText(cur: Cursor, t: Token)
    requires cur.run == [] && !cur.stopped && !cur.failed && IntConverts(NatToDecimal(t.n))
    ensures RunApplied(cur, t, Decode(cur, TokenText(t)))
  {
    var d := NatToDecimal(t.n);
    var pending := cur.(run := d);
    assert Decode(cur, d) == pending by {
      DecodeDigits(cur, d);
      assert cur.run + d == d;
    }
    assert Decode(cur, TokenText(t)) == Decode(pending, [TokenLetter(t)]) by {
      DecodeAppend(cur, d, [TokenLetter(t)]);
    }
    assert Decode(pending, [TokenLetter(t)]) == Feed(pending, TokenLetter(t)) by {
      assert [TokenLetter(t)][1..] == [];
    }
    DigitsValueOfDecimal(t.n);
    FeedTokenLetter(pending, t);
  }

  /** Decoding the written runs from a cursor with no pending count appends the cells the
      runs describe. */
  lemma {:induction false} DecodeEncodedTokens(cur: Cursor, tokens: seq<Token>)
    requires cur.run == [] && !cur.stopped && !cur.failed && CountsConvert(tokens)
    ensures var r := Decode(cur, EncodeTokens(tokens));
      r.cells == cur.cells + Expand(tokens, cur.x, cur.y) && r.run == [] && !r.stopped && !r.failed
    decreases |tokens|
  {
    if tokens == [] {
      assert cur.cells + [] == cur.cells;
    } else {
      var t := tokens[0];
      var next := Decode(cur, TokenText(t));
      assert Decode(cur, EncodeTokens(tokens)) == Decode(next, EncodeTokens(tokens[1..])) by {
        DecodeAppend(cur, TokenText(t), EncodeTokens(tokens[1..]));
      }
      DecodeTokenText(cur, t);
      assert CountsConvert(tokens[1..]) by {
        assert forall i | 0 <= i < |tokens| - 1 :: tokens[1..][i] == tokens[i + 1];
      }
      DecodeEncodedTokens(next, tokens[1..]);
      ExpandAfterRun(cur, tokens, next);
    }
  }

  /** What a run contributes to the expansion is what it appends to the cursor. */
  lemma ExpandAfterRun(before: Cursor, tokens: seq<Token>, after: Cursor)
    requires tokens != [] && RunApplied(before, tokens[0], after)
    ensures before.cells + Expand(tokens, before.x, before.y) == after.cells + Expand(tokens[1..], after.x, after.y)
  {
    var rest := Expand(tokens[1..], after.x, after.y);
    if tokens[0].Alive? {
      var run := AliveRun(before.x, before.y, tokens[0].n);
      assert Expand(tokens, before.x, before.y) == run + rest;
      assert before.cells + (run + rest) == (before.cells + run) + rest;
    }
  }

  /** The decoder inverts the encoder: the data line of a token list decodes to the cells the
      tokens describe, as long as `int()` converts every count. */
  lemma DecodeEncodedPattern(tokens: seq<Token>)
    requires CountsConvert(tokens)
    ensures Decode(StartCursor(), EncodePattern(tokens)).cells == Expand(tokens, 0, 0)
    ensures Decode(StartCursor(), EncodePattern(tokens)).stopped
    ensures !Decode(StartCursor(), EncodePattern(tokens)).failed
  {
    DecodeAppend(StartCursor(), EncodeTokens(tokens), "!");
    DecodeEncodedTokens(StartCursor(), tokens);
  }

  lemma {:induction false} DigitsEndAt(s: string, i: nat, j: nat)
    requires i <= j <= |s| && (j == |s| || !IsDigit(s[j]))
    requires forall k | i <= k < j :: IsDigit(s[k])
    ensures DigitsEnd(s, i) == j
    decreases j - i
  {
    if i < j {
      DigitsEndAt(s, i + 1, j);
    }
  }

  lemma HeaderLineMatches(width: nat, height: nat)
    ensures HeaderDigits(HeaderLine(width, height)) == Some((NatToDecimal(width), NatToDecimal(height)))
  {
    HeaderShapeMatches(NatToDecimal(width), NatToDecimal(height));
  }

  /** The header with any two digit strings matches. */
  lemma HeaderShapeMatches(w: string, h: string)
    requires AllDigits(w) && w != [] && AllDigits(h) && h != []
    ensures HeaderDigits("x = " + w + ", y = " + h) == Some((w, h))
  {
    var line := "x = " + w + ", y = " + h;
    var m := 4 + |w|;
    assert forall k | 4 <= k < m :: line[k] == w[k - 4];
    assert forall k | m + 6 <= k < |line| :: line[k] == h[k - m - 6];
    HeaderPositionsMatch(line, m);
    assert line[4..m] == w;
    assert line[m + 6..] == h;
  }

  /** A line laid out as `x = <digits>, y = <digits>` matches. */
  lemma HeaderPositionsMatch(line: string, m: nat)
    requires 4 < m && m + 6 < |line|
    requires line[0] == 'x' && line[1] == ' ' && line[2] == '=' && line[3] == ' '
    requires forall k | 4 <= k < m :: IsDigit(line[k])
    requires line[m] == ',' && line[m + 1] == ' ' && line[m + 2] == 'y' && line[m + 3] == ' '
    requires line[m + 4] == '=' && line[m + 5] == ' '
    requires forall k | m + 6 <= k < |line| :: IsDigit(line[k])
    ensures HeaderDigits(line) == Some((line[4..m], line[m + 6..]))
  {
    assert SpacesEnd(line, 1) == 2;
    assert SpacesEnd(line, 3) == 4;
    DigitsEndAt(line, 4, m);
    assert SpacesEnd(line, m) == m;
    assert SpacesEnd(line, m + 1) == m + 2;
    assert SpacesEnd(line, m + 3) == m + 4;
    assert SpacesEnd(line, m + 5) == m + 6;
    DigitsEndAt(line, m + 6, |line|);
    assert line[m + 6..|line|] == line[m + 6..];
  }

  /** The header line is accepted exactly when `int()` converts both numbers. */
  lemma HeaderLineScanned(width: nat, height: nat)
    ensures ScanLine(LineScan(false, []), HeaderLine(width, height))
      == if IntConverts(NatToDecimal(width)) && IntConverts(NatToDecimal(height)) then Some(LineScan(true, [])) else None
  {
    var header := HeaderLine(width, height);
    var h := NatToDecimal(height);
    assert header[0] == 'x';
    assert header[|header| - 1] == h[|h| - 1];
    StripUnchanged(header);
    HeaderLineMatches(width, height);
  }

  lemma EncodedPatternAlphabet(tokens: seq<Token>)
    ensures forall i | 0 <= i < |EncodePattern(tokens)| :: InAlphabet(EncodePattern(tokens)[i])
  {
    var data := EncodePattern(tokens);
    EncodedAlphabet(tokens);
    forall i | 0 <= i < |data|
      ensures InAlphabet(data[i])
    {
      if i < |EncodeTokens(tokens)| {
        assert data[i] == EncodeTokens(tokens)[i];
      }
    }
  }

  /** A data line of RLE characters, read after the header. */
  lemma DataLineScanned(data: string)
    requires data != [] && forall i | 0 <= i < |data| :: InAlphabet(data[i])
    ensures ScanLine(LineScan(true, []), data) == Some(LineScan(true, [data]))
  {
    assert Strip(data) == data && data[0] != '#' && StripComments(data) == data by {
      assert InAlphabet(data[0]) && InAlphabet(data[|data| - 1]);
      StripUnchanged(data);
      StripCommentsWithoutHash(data);
    }
    assert [] + [data] == [data];
  }

  /** The line loop over a header whose numbers `int()` converts and one data line. */
  lemma HeaderThenDataScanned(width: nat, height: nat, data: string)
    requires IntConverts(NatToDecimal(width)) && IntConverts(NatToDecimal(height))
    requires data != [] && forall i | 0 <= i < |data| :: InAlphabet(data[i])
    ensures ScanLines([HeaderLine(width, height), data]) == Some(LineScan(true, [data]))
  {
    var header := HeaderLine(width, height);
    var init := LineScan(false, []);
    assert ScanFrom(init, [header]) == Some(LineScan(true, [])) by {
      HeaderLineScanned(width, height);
      assert [header][..0] == [];
    }
    assert [header, data][..1] == [header];
    DataLineScanned(data);
  }

  /** End to end: a file holding the header and the encoded runs of a pattern converts to
      exactly the cells the runs describe. */
  lemma EncodedFileRoundTrip(width: nat, height: nat, tokens: seq<Token>)
    requires IntConverts(NatToDecimal(width)) && IntConverts(NatToDecimal(height)) && CountsConvert(tokens)
    ensures ParsedCells([HeaderLine(width, height), EncodePattern(tokens)]) == Some(Expand(tokens, 0, 0))
  {
    var data := EncodePattern(tokens);
    EncodedPatternAlphabet(tokens);
    HeaderThenDataScanned(width, height, data);
    assert Clean(Join([data])) == data by {
      assert [data][..0] == [];
      assert Join([data]) == data;
      CleanUnchanged(data);
    }
    DecodeEncodedPattern(tokens);
  }
}
