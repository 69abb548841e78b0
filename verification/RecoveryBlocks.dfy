/** What the text edits of RecoveryText do to the rows of a well-formed block,
    and that they touch nothing else. */
module RecoveryBlocks {
  import opened Wrappers
  import opened RecoveryDelta
  import opened RecoveryText

  /** A contract around one block: what precedes the rows, the rows as line
      groups without separating commas, and what follows the closing line. */
  datatype Contract = Contract(before: Lines, items: seq<Lines>, after: Lines)

  /** Every group followed by a comma. */
  function Commas(items: seq<Lines>): Lines {
    if items == [] then [] else
      Commas(items[..|items| - 1]) + WithComma(items[|items| - 1])
  }

  /** Commas between the groups only. */
  function Joined(items: seq<Lines>): Lines {
    if items == [] then [] else
      Commas(items[..|items| - 1]) + items[|items| - 1]
  }

  function Text(c: Contract): Lines {
    c.before + Joined(c.items) + (["),"] + c.after)
  }

  /** A row's lines end in a parenthesis and cannot be taken for the closing line. */
  predicate ItemOk(item: Lines) {
    && item != []
    && |item[|item| - 1]| > 1 && item[|item| - 1][|item[|item| - 1]| - 1] == ')'
    && forall line :: line in item ==> line != "),"
  }

  ghost predicate ItemsOk(items: seq<Lines>) {
    forall item :: item in items ==> ItemOk(item)
  }

  /** The block is found: its header and opening line precede the rows, and no
      closing line stands in between. */
  ghost predicate Placed(before: Lines, name: string) {
    var header := First(before, 0, |before|, HeaderOf(name));
    && header < |before|
    && First(before, header + 1, |before|, Closing) == |before|
    && First(before, header, |before|, OpeningLine) < |before|
    && !NeedsComma(before[|before| - 1])
  }

  function OpeningIndex(before: Lines, name: string): nat {
    First(before, First(before, 0, |before|, HeaderOf(name)), |before|, OpeningLine)
  }

  // ---- Commas -------------------------------------------------------------

  lemma {:induction false} CommasConcat(a: seq<Lines>, b: seq<Lines>)
    ensures Commas(a + b) == Commas(a) + Commas(b)
    decreases |b|
  {
    hide WithComma;
    if b == [] {
      assert a + b == a;
    } else {
      var k := |b| - 1;
      assert (a + b)[|a + b| - 1] == b[k];
      assert (a + b)[..|a + b| - 1] == a + b[..k];
      CommasConcat(a, b[..k]);
    }
  }

  lemma JoinedConcat(a: seq<Lines>, b: seq<Lines>)
    requires b != []
    ensures Joined(a + b) == Commas(a) + Joined(b)
  {
    hide Commas;
    var rest, last := b[..|b| - 1], b[|b| - 1];
    assert (a + b)[..|a + b| - 1] == a + rest;
    CommasConcat(a, rest);
    assert Commas(a) + Commas(rest) + last == Commas(a) + (Commas(rest) + last);
  }

  /** Adding the missing comma, and taking the superfluous one away. */
  lemma LastComma(items: seq<Lines>)
    requires items != [] && ItemsOk(items)
    ensures var j := Joined(items); var c := Commas(items);
      && |j| == |c| > 0
      && j[|j| - 1 := j[|j| - 1] + ","] == c
      && c[|c| - 1 := WithoutCommas(c[|c| - 1])] == j
      && NeedsComma(j[|j| - 1])
  {
    hide NeedsComma;
    var last := items[|items| - 1];
    assert ItemOk(last);
    var line := last[|last| - 1];
    assert (line + ",")[..|line|] == line;
    assert WithoutCommas(line + ",") == line;
    ParenthesisNeedsComma(line);
    LastLine(Commas(items[..|items| - 1]), last, line + ",");
    hide Commas, WithoutCommas, ItemOk;
  }

  lemma LastLine(head: Lines, last: Lines, line: string)
    requires last != []
    ensures var k := |head + last| - 1;
      && (head + last)[k] == last[|last| - 1]
      && (head + last)[k := line] == head + last[|last| - 1 := line]
      && (head + last[|last| - 1 := line])[k := last[|last| - 1]] == head + last
      && (head + last[|last| - 1 := line])[k] == line
  {
  }

  lemma ParenthesisNeedsComma(line: string)
    requires line != "" && line[|line| - 1] == ')'
    ensures NeedsComma(line)
  {
    assert Stripped(line) == line;
    assert line[|line| - 1..] == ")";
    assert |line| > 1 ==> line[|line| - 2..][1] == ')';
  }

  ghost predicate FromRow(items: seq<Lines>, line: string) {
    exists item :: item in items && (line in item || line in WithComma(item))
  }

  lemma {:induction false} CommaLine(items: seq<Lines>, line: string)
    requires line in Commas(items)
    ensures FromRow(items, line)
    decreases |items|
  {
    hide WithComma;
    var k := |items| - 1;
    assert items[k] in items;
    if line !in WithComma(items[k]) {
      CommaLine(items[..k], line);
      FromMore(items, k, line);
    }
  }

  lemma FromMore(items: seq<Lines>, k: nat, line: string)
    requires k <= |items| && FromRow(items[..k], line)
    ensures FromRow(items, line)
  {
    hide WithComma;
    var item :| item in items[..k] && (line in item || line in WithComma(item));
    assert item in items;
  }

  /** Every line of a block's rows is a line of one of them, with or without its comma. */
  lemma JoinedLine(items: seq<Lines>, line: string)
    requires line in Joined(items)
    ensures FromRow(items, line)
  {
    hide WithComma, Commas;
    var k := |items| - 1;
    assert items[k] in items;
    if line !in items[k] {
      CommaLine(items[..k], line);
      FromMore(items, k, line);
    }
  }

  // ---- The block is found where it is -------------------------------------

  lemma {:induction false} FirstIn(lines: Lines, more: Lines, lo: nat, hi: nat, kind: Kind)
    requires lo <= |lines| <= hi <= |lines + more| && First(lines, lo, |lines|, kind) < |lines|
    ensures First(lines + more, lo, hi, kind) == First(lines, lo, |lines|, kind)
    decreases |lines| - lo
  {
    assert (lines + more)[lo] == lines[lo];
    if !Is(lines[lo], kind) { FirstIn(lines, more, lo + 1, hi, kind); }
  }

  lemma {:induction false} FirstPast(lines: Lines, lo: nat, i: nat, hi: nat, kind: Kind)
    requires lo <= i <= hi <= |lines| && forall j :: lo <= j < i ==> !Is(lines[j], kind)
    ensures First(lines, lo, hi, kind) == First(lines, i, hi, kind)
    decreases i - lo
  {
    if lo < i { FirstPast(lines, lo + 1, i, hi, kind); }
  }

  lemma {:induction false} NoClosing(items: seq<Lines>)
    requires ItemsOk(items)
    ensures forall line :: line in Commas(items) ==> line != "),"
    ensures forall line :: line in Joined(items) ==> line != "),"
    decreases |items|
  {
    if items != [] {
      var last := items[|items| - 1];
      NoClosing(items[..|items| - 1]);
      assert ItemOk(last);
      forall line | line in WithComma(last) ensures line != ")," {
        var i :| 0 <= i < |last| && WithComma(last)[i] == line;
        if i < |last| - 1 { assert last[i] in last; }
      }
    }
  }

  lemma BlockFound(c: Contract, name: string)
    requires ItemsOk(c.items) && Placed(c.before, name)
    ensures Block(Text(c), name) == Some((OpeningIndex(c.before, name), |c.before| + |Joined(c.items)|))
  {
    hide Is, Joined, First;
    var lines := Text(c);
    var more := Joined(c.items) + (["),"] + c.after);
    assert lines == c.before + more;
    var header := First(c.before, 0, |c.before|, HeaderOf(name));
    var close := |c.before| + |Joined(c.items)|;
    FirstIn(c.before, more, 0, |lines|, HeaderOf(name));
    CloseIsFirst(c, header + 1);
    FirstIn(c.before, more, header, close, OpeningLine);
  }

  lemma CloseIsFirst(c: Contract, lo: nat)
    requires ItemsOk(c.items) && lo <= |c.before| && First(c.before, lo, |c.before|, Closing) == |c.before|
    ensures First(Text(c), lo, |Text(c)|, Closing) == |c.before| + |Joined(c.items)|
  {
    hide Joined, Commas;
    var lines, close := Text(c), |c.before| + |Joined(c.items)|;
    NoClosing(c.items);
    forall j | lo <= j < close ensures !Is(lines[j], Closing) {
      if j < |c.before| {
        assert lines[j] == c.before[j];
      } else {
        assert lines[j] == Joined(c.items)[j - |c.before|];
        assert lines[j] in Joined(c.items);
      }
    }
    FirstPast(lines, lo, close, |lines|, Closing);
    assert lines[close] == "),";
  }

  // ---- Appending ----------------------------------------------------------

  /** Inserting rendered rows appends them to the rows of the block, with the
      comma between old and new rows and none after the last; everything around
      the block stays as it is. */
  lemma InsertAppendsRows(c: Contract, name: string, added: seq<Lines>)
    requires ItemsOk(c.items) && ItemsOk(added) && Placed(c.before, name)
    ensures Inserted(Text(c), name, Commas(added)) == Some(Text(c.(items := c.items + added)))
  {
    hide Joined, ItemOk, Placed, NeedsComma;
    if added == [] {
      assert c.items + added == c.items;
    } else {
      hide Commas, Block, Text, WithoutCommas;
      BlockFound(c, name);
      LastComma(added);
      JoinedConcat(c.items, added);
      FixedIsCommas(c, name);
      CloseSplice(c.before, Commas(c.items), ["),"] + c.after, Joined(added));
      TextIs(c.(items := c.items + added));
    }
  }

  lemma TextIs(c: Contract)
    ensures Text(c) == c.before + Joined(c.items) + (["),"] + c.after)
  {
  }

  lemma CloseSplice(before: Lines, rows: Lines, tail: Lines, added: Lines)
    ensures var fixed := before + rows + tail; var close := |before| + |rows|;
      fixed[..close] + added + fixed[close..] == before + (rows + added) + tail
  {
    var fixed := before + rows + tail;
    assert fixed[..|before| + |rows|] == before + rows;
    assert fixed[|before| + |rows|..] == tail;
  }

  lemma FixedIsCommas(c: Contract, name: string)
    requires ItemsOk(c.items) && Placed(c.before, name)
    ensures var lines := Text(c); var close := |c.before| + |Joined(c.items)|;
      && 0 < close < |lines| && |Commas(c.items)| == |Joined(c.items)|
      && (if NeedsComma(lines[close - 1]) then lines[close - 1 := lines[close - 1] + ","] else lines)
         == c.before + Commas(c.items) + (["),"] + c.after)
  {
    hide NeedsComma;
    if c.items != [] {
      hide Joined, Commas, ItemOk, Placed;
      LastComma(c.items);
      var j := Joined(c.items);
      UpdateMiddle(c.before, j, ["),"] + c.after, |j| - 1, j[|j| - 1] + ",");
    } else {
      assert Joined(c.items) == [] && Commas(c.items) == [];
      assert Text(c)[|c.before| - 1] == c.before[|c.before| - 1];
    }
  }

  // ---- Rewriting ----------------------------------------------------------

  function Laid(layout: Layout, rows: seq<Row>): (items: seq<Lines>)
    ensures |items| == |rows| && forall i :: 0 <= i < |rows| ==> items[i] == RowItem(layout, rows[i])
  {
    seq(|rows|, i requires 0 <= i < |rows| => RowItem(layout, rows[i]))
  }

  /** The rows of a block with one value per line. */
  function Items(rows: seq<Row>): (items: seq<Lines>)
    ensures |items| == |rows| && forall i :: 0 <= i < |rows| ==> items[i] == RowLines(rows[i])
  {
    Laid(PerValue, rows)
  }

  /** A key and a fingerprint, without line breaks. */
  predicate Shaped(row: Row, width: nat) { |row| == width + 1 && Unbroken(row) }

  /** Rows of one key and one fingerprint, no key twice. */
  ghost predicate RowsOk(rows: seq<Row>, width: nat) {
    && width > 0
    && (forall i :: 0 <= i < |rows| ==> Shaped(rows[i], width))
    && (forall i, j :: 0 <= i < j < |rows| ==> Key(rows[i], width) != Key(rows[j], width))
  }

  /** No line between the opening line and the rows looks like a value. */
  ghost predicate NoValueAfterOpening(before: Lines, name: string) {
    forall i :: OpeningIndex(before, name) < i < |before| ==> !StartsWith(before[i], INDENT)
  }

  function Separated(item: Lines, more: bool): Lines { if more then WithComma(item) else item }

  /** Where the i-th row starts, counted from the first. */
  function Offset(i: nat, width: nat): nat {
    if i == 0 then 0 else Offset(i - 1, width) + width + 3
  }

  lemma ItemsOfRowsOk(rows: seq<Row>)
    ensures ItemsOk(Items(rows))
  {
    LaidOk(PerValue, rows);
  }

  lemma LaidOk(layout: Layout, rows: seq<Row>)
    ensures ItemsOk(Laid(layout, rows))
  {
    hide RowItem, ItemOk;
    forall item | item in Laid(layout, rows) ensures ItemOk(item) {
      var i :| 0 <= i < |rows| && Laid(layout, rows)[i] == item;
      RowItemOk(layout, rows[i]);
    }
  }

  lemma RowItemOk(layout: Layout, row: Row)
    ensures ItemOk(RowItem(layout, row))
  {
    hide RowLines;
    if layout.PerValue? { RowLinesOk(row); }
  }

  lemma RowLinesOk(row: Row)
    ensures ItemOk(RowLines(row))
  {
    forall line | line in RowLines(row) ensures line != ")," {
      var k :| 0 <= k < |RowLines(row)| && RowLines(row)[k] == line;
      if 0 < k < |row| + 1 { assert |line| >= 11; }
    }
  }

  lemma {:induction false} CommasLength(rows: seq<Row>, width: nat)
    requires forall i :: 0 <= i < |rows| ==> |rows[i]| == width + 1
    ensures |Commas(Items(rows))| == Offset(|rows|, width)
    decreases |rows|
  {
    hide WithComma, RowLines;
    if rows != [] {
      var k := |rows| - 1;
      assert Items(rows)[..k] == Items(rows[..k]);
      CommasLength(rows[..k], width);
      RowLength(rows[k]);
    }
  }

  lemma RowLength(row: Row)
    ensures |WithComma(RowLines(row))| == |row| + 2
  {
  }

  lemma JoinedSplit(items: seq<Lines>, i: nat)
    requires i < |items|
    ensures Joined(items) == Commas(items[..i]) + Separated(items[i], i + 1 < |items|) + Joined(items[i + 1..])
  {
    assert items == items[..i] + items[i..];
    if i + 1 < |items| {
      assert items[..i + 1] + items[i + 1..] == items;
      JoinedConcat(items[..i + 1], items[i + 1..]);
      assert items[..i + 1][..i] == items[..i];
    } else {
      assert items[i + 1..] == [];
    }
  }

  /** The lines from base + Offset(i) on are the i-th row, with or without its comma. */
  ghost predicate RowAt(lines: Lines, at: nat, row: Row) {
    && at + |row| + 2 <= |lines|
    && lines[at] == "     (" && (lines[at + |row| + 1] == "     )" || lines[at + |row| + 1] == "     ),")
    && forall k :: 0 <= k < |row| ==> lines[at + 1 + k] == ValueLine(row[k], k == |row| - 1)
  }

  lemma ItemsSlices(rows: seq<Row>, i: nat)
    requires i < |rows|
    ensures Items(rows)[..i] == Items(rows[..i]) && Items(rows)[i + 1..] == Items(rows[i + 1..])
  {
    hide RowLines;
  }

  /** The text around the i-th row. */
  lemma TextSplit(c: Contract, rows: seq<Row>, width: nat, i: nat) returns (head: Lines, rest: Lines)
    requires RowsOk(rows, width) && c.items == Items(rows) && i < |rows|
    ensures head == c.before + Commas(Items(rows[..i])) && rest == Joined(Items(rows[i + 1..])) + (["),"] + c.after)
    ensures |head| == |c.before| + Offset(i, width)
    ensures Text(c) == head + Separated(RowLines(rows[i]), i + 1 < |rows|) + rest
  {
    head, rest := c.before + Commas(Items(rows[..i])), Joined(Items(rows[i + 1..])) + (["),"] + c.after);
    CommasLength(rows[..i], width);
    JoinedSplit(c.items, i);
    ItemsSlices(rows, i);
    hide Commas, Joined, Items, RowLines, Separated;
    var item := Separated(RowLines(rows[i]), i + 1 < |rows|);
    Associate(c.before, Commas(Items(rows[..i])), item, Joined(Items(rows[i + 1..])), ["),"] + c.after);
  }

  lemma Associate(a: Lines, b: Lines, c: Lines, d: Lines, e: Lines)
    ensures a + (b + c + d) + e == a + b + c + (d + e)
  {
  }

  lemma RowStands(c: Contract, rows: seq<Row>, width: nat, i: nat)
    requires RowsOk(rows, width) && c.items == Items(rows) && i < |rows|
    ensures RowAt(Text(c), |c.before| + Offset(i, width), rows[i])
  {
    hide Text, Commas, Joined, RowLines, Separated, Offset, ValueLine, Items;
    var head, rest := TextSplit(c, rows, width, i);
    var item := Separated(RowLines(rows[i]), i + 1 < |rows|);
    SeparatedRow(rows[i], i + 1 < |rows|);
    RowMoves(head, item, rest, rows[i]);
  }

  lemma RowMoves(head: Lines, item: Lines, rest: Lines, row: Row)
    requires RowAt(item, 0, row) && |item| == |row| + 2
    ensures RowAt(head + item + rest, |head|, row)
  {
    hide ValueLine;
    var lines := head + item + rest;
    assert forall k :: 0 <= k < |item| ==> lines[|head| + k] == item[k];
  }

  lemma SeparatedRow(row: Row, more: bool)
    ensures |Separated(RowLines(row), more)| == |row| + 2 && RowAt(Separated(RowLines(row), more), 0, row)
  {
    assert "     )" + "," == "     ),";
  }

  lemma ValueLineFacts(a: string, b: string)
    ensures ValueLine(a, false) == ValueLine(b, false) <==> a == b
    ensures ValueLine(a, true) != ValueLine(b, false)
    ensures StartsWith(ValueLine(a, false), INDENT) && |ValueLine(a, false)| >= 12
  {
    var x, y := ValueLine(a, false), ValueLine(b, false);
    assert x[10..|x| - 2] == a && y[10..|y| - 2] == b;
    assert x[|x| - 1] == ',' && y[|y| - 1] == ',' && ValueLine(a, true)[|a| + 10] == '\'';
    assert x[..10] == INDENT;
  }

  /** Inside one row the key lines can only stand right after its opening parenthesis. */
  lemma RowMatches(lines: Lines, at: nat, stored: Row, row: Row, width: nat, r: nat)
    requires RowAt(lines, at, stored) && |stored| == |row| == width + 1 && width > 0 && r < width + 3
    ensures MatchAt(lines, at + r, KeyLines(row, width)) <==> r == 1 && Key(stored, width) == Key(row, width)
  {
    hide Key, RowAt, MatchAt, KeyLines;
    if MatchAt(lines, at + r, KeyLines(row, width)) {
      MatchesFirstOnly(lines, at, stored, row, width, r);
      MatchIsKey(lines, at, stored, row, width);
    }
    if r == 1 && Key(stored, width) == Key(row, width) { KeyMatches(lines, at, stored, row, width); }
  }

  lemma MatchLine(lines: Lines, i: nat, row: Row, width: nat, t: nat)
    requires |row| == width + 1 && t < width && MatchAt(lines, i, KeyLines(row, width))
    ensures i + t < |lines| && lines[i + t] == ValueLine(row[t], false)
  {
    hide ValueLine;
    assert lines[i..i + width][t] == KeyLines(row, width)[t];
  }

  lemma MatchesFirstOnly(lines: Lines, at: nat, stored: Row, row: Row, width: nat, r: nat)
    requires RowAt(lines, at, stored) && |stored| == |row| == width + 1 && width > 0 && r < width + 3
    requires MatchAt(lines, at + r, KeyLines(row, width))
    ensures r == 1
  {
    hide ValueLine, MatchAt, KeyLines;
    assert lines[at + 1 + width] == ValueLine(stored[width], true);
    MatchLine(lines, at + r, row, width, 0);
    ValueLineFacts(row[0], row[0]);
    if 1 < r <= width + 1 {
      ValueLineFacts(stored[width], row[width + 1 - r]);
      MatchLine(lines, at + r, row, width, width + 1 - r);
    }
  }

  lemma MatchIsKey(lines: Lines, at: nat, stored: Row, row: Row, width: nat)
    requires RowAt(lines, at, stored) && |stored| == |row| == width + 1
    requires MatchAt(lines, at + 1, KeyLines(row, width))
    ensures Key(stored, width) == Key(row, width)
  {
    hide ValueLine, MatchAt, KeyLines;
    forall t | 0 <= t < width ensures stored[t] == row[t] {
      MatchLine(lines, at + 1, row, width, t);
      ValueLineFacts(stored[t], row[t]);
    }
  }

  lemma KeyMatches(lines: Lines, at: nat, stored: Row, row: Row, width: nat)
    requires RowAt(lines, at, stored) && |stored| == |row| == width + 1 && Key(stored, width) == Key(row, width)
    ensures MatchAt(lines, at + 1, KeyLines(row, width))
  {
    hide ValueLine;
    var keyLines := KeyLines(row, width);
    forall t | 0 <= t < width ensures lines[at + 1 + t] == keyLines[t] {
      assert Key(stored, width)[t] == Key(row, width)[t];
    }
    assert lines[at + 1..at + 1 + width] == keyLines;
  }

  lemma {:induction false} MatchesExtend(lines: Lines, lo: nat, mid: nat, hi: nat, keyLines: Lines, p: nat)
    requires lo <= mid <= hi && forall i :: mid <= i < hi && MatchAt(lines, i, keyLines) ==> i == p
    ensures Matches(lines, lo, hi, keyLines)
         == Matches(lines, lo, mid, keyLines) + if mid <= p < hi && MatchAt(lines, p, keyLines) then [p] else []
    decreases hi - mid
  {
    hide MatchAt;
    if mid < hi { MatchesExtend(lines, lo, mid, hi - 1, keyLines, p); }
  }

  /** The positions of the rows with the given key. */
  function KeyPositions(rows: seq<Row>, key: Row, width: nat, base: nat, n: nat): seq<nat>
    requires n <= |rows|
  {
    if n == 0 then [] else
      KeyPositions(rows, key, width, base, n - 1)
      + if Key(rows[n - 1], width) == key then [base + Offset(n - 1, width) + 1] else []
  }

  ghost predicate RowsStand(lines: Lines, base: nat, rows: seq<Row>, width: nat) {
    forall i {:trigger rows[i]} :: 0 <= i < |rows| ==> RowAt(lines, base + Offset(i, width), rows[i])
  }

  ghost predicate NoMatch(lines: Lines, lo: nat, hi: nat, keyLines: Lines) {
    forall i {:trigger MatchAt(lines, i, keyLines)} :: lo <= i < hi ==> !MatchAt(lines, i, keyLines)
  }

  lemma {:induction false} MatchesAreKeys(lines: Lines, lo: nat, base: nat, rows: seq<Row>, row: Row, width: nat, n: nat)
    requires lo <= base && RowsOk(rows, width) && |row| == width + 1 && n <= |rows|
    requires NoMatch(lines, lo, base, KeyLines(row, width)) && RowsStand(lines, base, rows, width)
    ensures Matches(lines, lo, base + Offset(n, width), KeyLines(row, width))
         == KeyPositions(rows, Key(row, width), width, base, n)
    decreases n
  {
    hide MatchAt, RowAt, Key, KeyLines;
    var keyLines := KeyLines(row, width);
    if n == 0 {
      hide RowsStand, RowsOk;
      MatchesExtend(lines, lo, lo, base, keyLines, base);
    } else {
      MatchesAreKeys(lines, lo, base, rows, row, width, n - 1);
      var at := base + Offset(n - 1, width);
      assert RowAt(lines, at, rows[n - 1]) && |rows[n - 1]| == width + 1;
      RowMatchesAll(lines, at, rows[n - 1], row, width);
      hide RowsStand, RowsOk, NoMatch;
      MatchesExtend(lines, lo, at, at + width + 3, keyLines, at + 1);
    }
  }

  lemma RowMatchesAll(lines: Lines, at: nat, stored: Row, row: Row, width: nat)
    requires RowAt(lines, at, stored) && |stored| == |row| == width + 1 && width > 0
    ensures forall i :: at <= i < at + width + 3 ==>
      (MatchAt(lines, i, KeyLines(row, width)) <==> i == at + 1 && Key(stored, width) == Key(row, width))
  {
    hide MatchAt, RowAt, Key, KeyLines;
    forall i | at <= i < at + width + 3
      ensures MatchAt(lines, i, KeyLines(row, width)) <==> i == at + 1 && Key(stored, width) == Key(row, width)
    {
      RowMatches(lines, at, stored, row, width, i - at);
    }
  }

  lemma {:induction false} KeyPositionsUnique(rows: seq<Row>, key: Row, width: nat, base: nat, n: nat, i: nat)
    requires n <= |rows| && i < |rows|
    requires forall j :: 0 <= j < |rows| ==> (Key(rows[j], width) == key <==> j == i)
    ensures KeyPositions(rows, key, width, base, n) == if i < n then [base + Offset(i, width) + 1] else []
    decreases n
  {
    hide Key, Offset;
    if n > 0 { KeyPositionsUnique(rows, key, width, base, n - 1, i); }
  }

  lemma {:induction false} KeyPositionsNone(rows: seq<Row>, key: Row, width: nat, base: nat, n: nat)
    requires n <= |rows| && forall i :: 0 <= i < |rows| ==> Key(rows[i], width) != key
    ensures KeyPositions(rows, key, width, base, n) == []
    decreases n
  {
    if n > 0 { KeyPositionsNone(rows, key, width, base, n - 1); }
  }

  /** Setting the fingerprint line of the i-th row is replacing the row. */
  lemma RowReplaced(c: Contract, rows: seq<Row>, width: nat, i: nat, row: Row)
    requires i < |rows| && RowsOk(rows, width) && RowsOk(rows[i := row], width) && c.items == Items(rows)
    requires |row| == |rows[i]| == width + 1 && row[..width] == rows[i][..width]
    ensures |c.before| + Offset(i, width) + 1 + width < |Text(c)|
    ensures Text(c)[|c.before| + Offset(i, width) + 1 + width := ValueLine(row[width], true)]
         == Text(c.(items := Items(rows[i := row])))
  {
    hide Text, Commas, Joined, RowLines, Separated, Offset, ValueLine, RowsOk;
    var rows' := rows[i := row];
    var head, rest := TextSplit(c, rows, width, i);
    var head', rest' := TextSplit(c.(items := Items(rows')), rows', width, i);
    assert rows'[..i] == rows[..i] && rows'[i + 1..] == rows[i + 1..];
    var more := i + 1 < |rows|;
    ItemReplaced(rows[i], width, row[width], more);
    assert rows[i][width := row[width]] == row;
    UpdateMiddle(head, Separated(RowLines(rows[i]), more), rest, width + 1, ValueLine(row[width], true));
  }

  lemma UpdateMiddle(head: Lines, item: Lines, rest: Lines, k: nat, line: string)
    requires k < |item|
    ensures (head + item + rest)[|head| + k := line] == head + item[k := line] + rest
  {
  }

  lemma ItemReplaced(row: Row, width: nat, value: string, more: bool)
    requires |row| == width + 1
    ensures var item := Separated(RowLines(row), more);
      |item| == width + 3 && item[width + 1 := ValueLine(value, true)] == Separated(RowLines(row[width := value]), more)
  {
    hide ValueLine;
  }

  lemma FingerprintLineIff(value: string)
    ensures FingerprintLine(ValueLine(value, true)) <==> Fingerprint(value)
  {
    var line := ValueLine(value, true);
    assert line[..10] == INDENT;
    if |value| == 32 { assert line[10..42] == value; }
  }

  /** Rewriting succeeds exactly for a declared key that the block has and whose
      stored fingerprint is one; it then replaces that row's fingerprint and
      nothing else. */
  lemma RewriteReplacesRow(c: Contract, name: string, rows: seq<Row>, width: nat, declared: set<Row>, row: Row)
    requires Placed(c.before, name) && NoValueAfterOpening(c.before, name)
    requires RowsOk(rows, width) && c.items == Items(rows) && Shaped(row, width)
    ensures (forall i :: 0 <= i < |rows| ==> Key(rows[i], width) != Key(row, width)) || Key(row, width) !in declared
      ==> RewrittenLines(Text(c), name, width, declared, row) == None
    ensures forall i :: 0 <= i < |rows| && Key(rows[i], width) == Key(row, width) && Key(row, width) in declared ==>
      RewrittenLines(Text(c), name, width, declared, row)
      == if Fingerprint(rows[i][width]) then Some(Text(c.(items := Items(rows[i := row])))) else None
  {
    hide Text, Joined, Commas, Block, Placed, FingerprintLine, Fingerprint, ValueLine, Matches, KeyLines, Offset, KeyPositions;
    var lines, base := Text(c), |c.before|;
    ItemsOfRowsOk(rows);
    BlockFound(c, name);
    JoinedLength(rows, width);
    BlockMatches(c, name, rows, width, row);
    if i :| 0 <= i < |rows| && Key(rows[i], width) == Key(row, width) {
      SameKeyRow(rows, width, i, row);
      KeyPositionsUnique(rows, Key(row, width), width, base, |rows|, i);
      StoredLine(c, rows, width, i);
      RowReplaced(c, rows, width, i, row);
    } else {
      KeyPositionsNone(rows, Key(row, width), width, base, |rows|);
    }
  }

  lemma SameKeyRow(rows: seq<Row>, width: nat, i: nat, row: Row)
    requires RowsOk(rows, width) && i < |rows| && Shaped(row, width) && Key(rows[i], width) == Key(row, width)
    ensures RowsOk(rows[i := row], width) && row[..width] == rows[i][..width]
    ensures forall j :: 0 <= j < |rows| && Key(rows[j], width) == Key(row, width) ==> j == i
  {
  }

  lemma StoredLine(c: Contract, rows: seq<Row>, width: nat, i: nat)
    requires RowsOk(rows, width) && c.items == Items(rows) && i < |rows|
    ensures var target := |c.before| + Offset(i, width) + 1 + width;
      target < |Text(c)| && (FingerprintLine(Text(c)[target]) <==> Fingerprint(rows[i][width]))
  {
    hide Text, Offset, FingerprintLine, Fingerprint, ValueLine, Items;
    RowStands(c, rows, width, i);
    FingerprintLineIff(rows[i][width]);
  }

  lemma JoinedLength(rows: seq<Row>, width: nat)
    requires forall i :: 0 <= i < |rows| ==> |rows[i]| == width + 1
    ensures |Joined(Items(rows))| == Offset(|rows|, width)
  {
    ItemsOfRowsOk(rows);
    CommasLength(rows, width);
    if rows != [] { LastComma(Items(rows)); }
  }

  lemma BlockMatches(c: Contract, name: string, rows: seq<Row>, width: nat, row: Row)
    requires Placed(c.before, name) && NoValueAfterOpening(c.before, name)
    requires RowsOk(rows, width) && c.items == Items(rows) && |row| == width + 1
    ensures Matches(Text(c), OpeningIndex(c.before, name) + 1, |c.before| + Offset(|rows|, width), KeyLines(row, width))
         == KeyPositions(rows, Key(row, width), width, |c.before|, |rows|)
  {
    hide *;
    OpeningInside(c.before, name);
    NoMatchesBefore(c, name, row, width, rows);
    AllRowsStand(c, rows, width);
    MatchesAreKeys(Text(c), OpeningIndex(c.before, name) + 1, |c.before|, rows, row, width, |rows|);
  }

  lemma NoMatchesBefore(c: Contract, name: string, row: Row, width: nat, rows: seq<Row>)
    requires NoValueAfterOpening(c.before, name) && RowsOk(rows, width) && |row| == width + 1
    ensures NoMatch(Text(c), OpeningIndex(c.before, name) + 1, |c.before|, KeyLines(row, width))
  {
    hide Text, MatchAt, OpeningIndex, KeyLines, Key;
    forall i | OpeningIndex(c.before, name) + 1 <= i < |c.before| ensures !MatchAt(Text(c), i, KeyLines(row, width)) {
      NoMatchBefore(c, i, row, width);
    }
  }

  lemma AllRowsStand(c: Contract, rows: seq<Row>, width: nat)
    requires RowsOk(rows, width) && c.items == Items(rows)
    ensures RowsStand(Text(c), |c.before|, rows, width)
  {
    hide Text, RowAt, Offset, Items, RowsOk;
    forall i | 0 <= i < |rows| ensures RowAt(Text(c), |c.before| + Offset(i, width), rows[i]) {
      RowStands(c, rows, width, i);
    }
  }

  lemma MatchFirst(lines: Lines, i: nat, keyLines: Lines)
    ensures MatchAt(lines, i, keyLines) && keyLines != [] ==> i < |lines| && lines[i] == keyLines[0]
  {
    if MatchAt(lines, i, keyLines) && keyLines != [] { assert lines[i] == lines[i..i + |keyLines|][0]; }
  }

  lemma NoMatchBefore(c: Contract, i: nat, row: Row, width: nat)
    requires i < |c.before| && !StartsWith(c.before[i], INDENT) && width > 0 && |row| == width + 1
    ensures !MatchAt(Text(c), i, KeyLines(row, width))
  {
    hide Joined, ValueLine;
    var lines, keyLines := Text(c), KeyLines(row, width);
    ValueLineFacts(row[0], row[0]);
    assert lines[i] == c.before[i];
    MatchFirst(lines, i, keyLines);
  }

  lemma OpeningInside(before: Lines, name: string)
    requires Placed(before, name)
    ensures OpeningIndex(before, name) < |before|
  {
  }
}
