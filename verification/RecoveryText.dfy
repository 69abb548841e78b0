/** scripts/mint_recovery_contract_v25.py: editing a VALUES block in the lines
    of a contract, as a function on its rows. */
module RecoveryText {
  import opened PythonStrings
  import opened Wrappers
  import opened RecoveryDelta

  type Lines = seq<string>

  // ---- Finding a block ----------------------------------------------------

  predicate StartsWith(s: string, prefix: string) {
    |prefix| <= |s| && s[..|prefix|] == prefix
  }

  predicate EndsWith(s: string, suffix: string) {
    |suffix| <= |s| && s[|s| - |suffix|..] == suffix
  }

  function Stripped(s: string): string {
    if s != "" && Space(s[|s| - 1]) then Stripped(s[..|s| - 1]) else s
  }

  predicate Header(line: string, name: string) {
    StartsWith(line, name + "(") || StartsWith(line, name + " AS (") || StartsWith(line, "WITH " + name + "(")
  }

  predicate Opening(line: string) { EndsWith(Stripped(line), " AS (") }

  datatype Kind = HeaderOf(name: string) | Closing | OpeningLine

  predicate Is(line: string, kind: Kind) {
    match kind
    case HeaderOf(name) => Header(line, name)
    case Closing => line == "),"
    case OpeningLine => Opening(line)
  }

  /** The first line of a kind from lo on, below hi; hi when there is none. */
  function First(lines: Lines, lo: nat, hi: nat, kind: Kind): (i: nat)
    requires lo <= hi <= |lines|
    ensures lo <= i <= hi && (i < hi ==> Is(lines[i], kind))
    ensures forall j :: lo <= j < i ==> !Is(lines[j], kind)
    decreases hi - lo
  {
    if lo == hi || Is(lines[lo], kind) then lo else First(lines, lo + 1, hi, kind)
  }

  /** Where the block opens and closes; None stands for every way the search fails. */
  function Block(lines: Lines, name: string): (r: Option<(nat, nat)>)
    ensures r.Some? ==> r.value.0 < r.value.1 < |lines|
  {
    var header := First(lines, 0, |lines|, HeaderOf(name));
    if header == |lines| then None else
      var close := First(lines, header + 1, |lines|, Closing);
      if close == |lines| then None else
        var opening := First(lines, header, close, OpeningLine);
        if opening == close then None else Some((opening, close))
  }

  method FindFirst(lines: Lines, lo: nat, hi: nat, kind: Kind) returns (i: nat)
    requires lo <= hi <= |lines|
    ensures i == First(lines, lo, hi, kind)
  {
    i := lo;
    while i < hi && !Is(lines[i], kind)
      invariant lo <= i <= hi && First(lines, lo, hi, kind) == First(lines, i, hi, kind)
    {
      i := i + 1;
    }
  }

  method FindBlock(lines: Lines, name: string) returns (r: Option<(nat, nat)>)
    ensures r == Block(lines, name)
  {
    var header := FindFirst(lines, 0, |lines|, HeaderOf(name));
    if header == |lines| {
      return None;
    }
    var close := FindFirst(lines, header + 1, |lines|, Closing);
    if close == |lines| {
      return None;
    }
    var opening := FindFirst(lines, header, close, OpeningLine);
    r := if opening == close then None else Some((opening, close));
  }

  // ---- Appending rows -----------------------------------------------------

  function WithoutCommas(s: string): string {
    if s != "" && s[|s| - 1] == ',' then WithoutCommas(s[..|s| - 1]) else s
  }

  predicate NeedsComma(line: string) {
    EndsWith(Stripped(line), ")") && !EndsWith(Stripped(line), "),")
  }

  /** The lines after inserting pre-rendered rows at the end of the block. */
  function Inserted(lines: Lines, name: string, rendered: Lines): Option<Lines> {
    if rendered == [] then Some(lines) else
      match Block(lines, name)
      case None => None
      case Some((_, close)) =>
        var last := close - 1;
        var fixed := if NeedsComma(lines[last]) then lines[last := lines[last] + ","] else lines;
        var ended := rendered[|rendered| - 1 := WithoutCommas(rendered[|rendered| - 1])];
        Some(fixed[..close] + ended + fixed[close..])
  }

  method InsertPlain(lines: Lines, name: string, rendered: Lines) returns (r: Option<Lines>)
    ensures r == Inserted(lines, name, rendered)
  {
    if rendered == [] {
      return Some(lines);
    }
    var block := FindBlock(lines, name);
    if block.None? {
      return None;
    }
    var close := block.value.1;
    var fixed := lines;
    if NeedsComma(lines[close - 1]) {
      fixed := fixed[close - 1 := lines[close - 1] + ","];
    }
    var ended := rendered[|rendered| - 1 := WithoutCommas(rendered[|rendered| - 1])];
    r := Some(fixed[..close] + ended + fixed[close..]);
  }

  /** Most blocks spell a row with one value per line; sequences and trigger
      functions put it on one line. */
  datatype Layout = PerValue | OneLine

  const INDENT := "         '"

  function ValueLine(value: string, last: bool): string {
    INDENT + value + if last then "'" else "',"
  }

  function ValueLines(row: Row): Lines {
    seq(|row|, i requires 0 <= i < |row| => ValueLine(row[i], i == |row| - 1))
  }

  /** A row as the scripts write it, without the comma that separates it from the next. */
  function RowLines(row: Row): Lines {
    ["     ("] + ValueLines(row) + ["     )"]
  }

  function WithComma(item: Lines): Lines {
    if item == [] then [] else item[|item| - 1 := item[|item| - 1] + ","]
  }

  /** sep.join(parts). */
  function Join(sep: string, parts: seq<string>): string {
    if parts == [] then "" else if |parts| == 1 then parts[0] else parts[0] + sep + Join(sep, parts[1..])
  }

  /** text.split("\n"). */
  function Broken(text: string): (lines: Lines)
    ensures lines != []
  {
    if text == "" then [""]
    else if text[0] == '\n' then [""] + Broken(text[1..])
    else var rest := Broken(text[1..]); rest[0 := [text[0]] + rest[0]]
  }

  function Quoted(row: Row): seq<string> {
    seq(|row|, i requires 0 <= i < |row| => INDENT + row[i] + "'")
  }

  /** One row as the script renders it. On one line, a row's values are those
      spelled in SQL: text in quotes, numbers and truth values bare. */
  function RenderedRow(layout: Layout, row: Row): Lines {
    match layout
    case PerValue => ["     ("] + Broken(Join(",\n", Quoted(row))) + ["     ),"]
    case OneLine => ["     (" + Join(", ", row) + "),"]
  }

  function Rendered(layout: Layout, rows: seq<Row>): Lines {
    if rows == [] then [] else Rendered(layout, rows[..|rows| - 1]) + RenderedRow(layout, rows[|rows| - 1])
  }

  method AppendRows(lines: Lines, name: string, layout: Layout, rows: seq<Row>) returns (r: Option<Lines>)
    ensures r == Inserted(lines, name, Rendered(layout, rows))
  {
    hide RenderedRow;
    var block: Lines := [];
    for i := 0 to |rows|
      invariant block == Rendered(layout, rows[..i])
    {
      assert rows[..i + 1][..i] == rows[..i];
      block := block + RenderedRow(layout, rows[i]);
    }
    assert rows[..|rows|] == rows;
    r := InsertPlain(lines, name, block);
  }

  // ---- Rows without line breaks -------------------------------------------

  predicate Unbroken(row: Row) {
    forall value :: value in row ==> '\n' !in value
  }

  lemma {:induction false} BrokenLine(line: string)
    requires '\n' !in line
    ensures Broken(line) == [line]
    decreases |line|
  {
    if line != "" {
      assert line[0] in line && forall c :: c in line[1..] ==> c in line;
      BrokenLine(line[1..]);
      assert [line[0]] + line[1..] == line;
    }
  }

  lemma {:induction false} BrokenConcat(line: string, rest: string)
    requires '\n' !in line
    ensures Broken(line + "\n" + rest) == [line] + Broken(rest)
    decreases |line|
  {
    var text := line + "\n" + rest;
    if line == "" {
      assert text[1..] == rest;
    } else {
      assert line[0] in line && forall c :: c in line[1..] ==> c in line;
      assert text[1..] == line[1..] + "\n" + rest;
      BrokenConcat(line[1..], rest);
      assert ([line[1..]] + Broken(rest))[0 := [line[0]] + line[1..]] == [[line[0]] + line[1..]] + Broken(rest);
      assert [line[0]] + line[1..] == line;
    }
  }

  /** Without line breaks in its values a row takes one line per value. */
  lemma {:induction false} BrokenValues(row: Row)
    requires row != [] && Unbroken(row)
    ensures Broken(Join(",\n", Quoted(row))) == ValueLines(row)
    decreases |row|
  {
    hide Broken;
    var first := INDENT + row[0] + "'";
    assert row[0] in row;
    assert Quoted(row)[0] == first;
    if |row| == 1 {
      BrokenLine(first);
      assert ValueLines(row) == [first];
    } else {
      assert Quoted(row)[1..] == Quoted(row[1..]);
      BrokenValues(row[1..]);
      var rest := Join(",\n", Quoted(row[1..]));
      BrokenConcat(first + ",", rest);
      assert first + ",\n" + rest == first + "," + "\n" + rest;
      assert first + "," == ValueLine(row[0], false);
      assert ValueLines(row) == [ValueLine(row[0], false)] + ValueLines(row[1..]);
    }
  }

  /** The lines of a row before the comma that separates it from the next. */
  function RowItem(layout: Layout, row: Row): Lines {
    match layout
    case PerValue => RowLines(row)
    case OneLine => ["     (" + Join(", ", row) + ")"]
  }

  lemma RenderedRowIs(layout: Layout, row: Row)
    requires layout.PerValue? ==> row != [] && Unbroken(row)
    ensures RenderedRow(layout, row) == WithComma(RowItem(layout, row))
  {
    hide Broken, ValueLines, Join;
    if layout.PerValue? {
      BrokenValues(row);
      assert "     )" + "," == "     ),";
    } else {
      assert "     (" + Join(", ", row) + ")" + "," == "     (" + Join(", ", row) + "),";
    }
  }

  // ---- Rewriting one fingerprint ------------------------------------------

  predicate HexDigit(c: char) { '0' <= c <= '9' || 'a' <= c <= 'f' }

  predicate Fingerprint(value: string) { |value| == 32 && forall c :: c in value ==> HexDigit(c) }

  predicate FingerprintLine(line: string) {
    |line| == 43 && line[..10] == INDENT && line[42] == '\'' && Fingerprint(line[10..42])
  }

  function KeyLines(row: Row, width: nat): Lines
    requires width <= |row|
  {
    seq(width, i requires 0 <= i < width => ValueLine(row[i], false))
  }

  predicate MatchAt(lines: Lines, i: nat, keyLines: Lines) {
    i + |keyLines| <= |lines| && lines[i..i + |keyLines|] == keyLines
  }

  /** The positions in [lo, hi) where the key lines stand. */
  function Matches(lines: Lines, lo: nat, hi: nat, keyLines: Lines): seq<nat>
    requires lo <= hi
    decreases hi - lo
  {
    if lo == hi then [] else
      Matches(lines, lo, hi - 1, keyLines) + if MatchAt(lines, hi - 1, keyLines) then [hi - 1] else []
  }

  /** The lines after rewriting the fingerprint of the one row with the given key. */
  function RewrittenLines(lines: Lines, name: string, width: nat, declared: set<Row>, row: Row): Option<Lines>
    requires width < |row|
  {
    if Key(row, width) !in declared || Block(lines, name).None? then None else
      var (opening, close) := Block(lines, name).value;
      var matches := Matches(lines, opening + 1, close, KeyLines(row, width));
      if |matches| != 1 || matches[0] + width >= |lines| || !FingerprintLine(lines[matches[0] + width]) then None
      else Some(lines[matches[0] + width := ValueLine(row[width], true)])
  }

  method RewriteRow(lines: Lines, name: string, width: nat, declared: set<Row>, row: Row) returns (r: Option<Lines>)
    requires width < |row|
    ensures r == RewrittenLines(lines, name, width, declared, row)
  {
    if Key(row, width) !in declared {
      return None;
    }
    var block := FindBlock(lines, name);
    if block.None? {
      return None;
    }
    var (opening, close) := block.value;
    var keyLines := KeyLines(row, width);
    var matches := [];
    for i := opening + 1 to close
      invariant matches == Matches(lines, opening + 1, i, keyLines)
    {
      if MatchAt(lines, i, keyLines) {
        matches := matches + [i];
      }
    }
    if |matches| != 1 || matches[0] + width >= |lines| {
      return None;
    }
    var target := matches[0] + width;
    if !FingerprintLine(lines[target]) {
      return None;
    }
    r := Some(lines[target := ValueLine(row[width], true)]);
  }
}
