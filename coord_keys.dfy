/** The worker's string keys for live cells: `coordKey` and `parseKey` (worker.js). */
module CoordKeys {
  import opened Common
  import opened Decimal

  /** `coordKey(x, y)`: the template literal `${x},${y}`. */
  function CoordKey(x: int, y: int): string
  {
    IntToDecimal(x) + "," + IntToDecimal(y)
  }

  /** Whitespace that `parseInt` skips before the number (the ASCII and Latin-1 part of
      ECMAScript's WhiteSpace and LineTerminator). */
  predicate IsJsSpace(c: char)
  {
    c == ' ' || c == '\t' || c == '\n' || c == '\r' || c == '\U{000B}' || c == '\U{000C}' || c == '\U{00A0}'
  }

  function TrimStart(s: string): (t: string)
    ensures |t| <= |s|
    ensures t != [] ==> !IsJsSpace(t[0])
  {
    if s != [] && IsJsSpace(s[0]) then TrimStart(s[1..]) else s
  }

  /** `parseInt(s, 10)`: an optional sign and the longest run of digits after it;
      `None` stands for `NaN` (no digits at all). */
  function ParseInt(s: string): Option<int>
  {
    var t := TrimStart(s);
    var negative := t != [] && t[0] == '-';
    var rest := if t != [] && (t[0] == '-' || t[0] == '+') then t[1..] else t;
    var digits := LeadingDigits(rest);
    var magnitude: int := if digits == [] then 0 else DigitsValue(digits);
    if digits == [] then None
    else if negative then Some(-magnitude)
    else Some(magnitude)
  }

  /** `key.split(',')`: the pieces between commas, in order. */
  function SplitCommas(s: string): (parts: seq<string>)
    ensures |parts| >= 1
  {
    if ',' !in s then [s]
    else
      var i := FirstComma(s);
      [s[..i]] + SplitCommas(s[i + 1..])
  }

  function FirstComma(s: string): (i: nat)
    requires ',' in s
    ensures i < |s| && s[i] == ',' && ',' !in s[..i]
  {
    if s[0] == ',' then 0 else 1 + FirstComma(s[1..])
  }

  /** What `parseKey` returns: `{x, y}`, where a component may be `NaN`. */
  datatype ParsedKey = ParsedKey(x: Option<int>, y: Option<int>)

  /** `parseKey(key)`: `parseInt` of the first two comma-separated pieces
      (a missing piece is `undefined`, which parses to `NaN`). */
  function ParseKey(key: string): ParsedKey
  {
    var parts := SplitCommas(key);
    ParsedKey(ParseInt(parts[0]), if |parts| >= 2 then ParseInt(parts[1]) else None)
  }

  /** Parsing a key gives back the coordinates it was made from. */
  lemma ParseKeyOfCoordKey(x: int, y: int)
    ensures ParseKey(CoordKey(x, y)) == ParsedKey(Some(x), Some(y))
  {
    var a, b := IntToDecimal(x), IntToDecimal(y);
    var key := CoordKey(x, y);
    assert ',' !in a && ',' !in b;
    assert key[|a|] == ',';
    assert key[..|a|] == a;
    FirstCommaAfter(a, b);
    assert key[|a| + 1..] == b;
    assert SplitCommas(key) == [a, b];
    ParseIntOfDecimal(x);
    ParseIntOfDecimal(y);
  }

  lemma FirstCommaAfter(a: string, b: string)
    requires ',' !in a
    ensures ',' in a + "," + b && FirstComma(a + "," + b) == |a|
  {
    var s := a + "," + b;
    assert s[|a|] == ',';
    assert s[..|a|] == a;
  }

  lemma ParseIntOfDecimal(i: int)
    ensures ParseInt(IntToDecimal(i)) == Some(i)
  {
    var s := IntToDecimal(i);
    assert TrimStart(s) == s;
    var m: nat := if i < 0 then -i else i;
    var digits := NatToDecimal(m);
    LeadingDigitsOfDigits(digits);
    DigitsValueOfDecimal(m);
    if i < 0 {
      assert s == "-" + digits && s[1..] == digits;
    } else {
      assert s == digits && !(s[0] == '-' || s[0] == '+');
    }
  }

  /** Distinct cells have distinct keys, so a set of keys is a set of cells. */
  lemma CoordKeyInjective(x1: int, y1: int, x2: int, y2: int)
    requires CoordKey(x1, y1) == CoordKey(x2, y2)
    ensures x1 == x2 && y1 == y2
  {
    ParseKeyOfCoordKey(x1, y1);
    ParseKeyOfCoordKey(x2, y2);
  }
}
