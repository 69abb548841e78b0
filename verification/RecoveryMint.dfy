/** scripts/mint_recovery_contract_v25.py: minting one block, from the measured
    difference to the written lines, and what the written lines then describe. */
module RecoveryMint {
  import opened Wrappers
  import opened RecoveryDelta
  import opened RecoveryText
  import opened RecoveryBlocks

  /** Rewrite the rows one after the other. */
  function RewriteAll(lines: Lines, name: string, width: nat, declared: set<Row>, rewrites: seq<Row>): Option<Lines> {
    if rewrites == [] then Some(lines) else
      var k := |rewrites| - 1;
      match RewriteAll(lines, name, width, declared, rewrites[..k])
      case None => None
      case Some(next) =>
        if |rewrites[k]| <= width then None else RewrittenLines(next, name, width, declared, rewrites[k])
  }

  /** The block after minting; None when the delta is refused, incomplete, or an edit fails. */
  function MintedLines(lines: Lines, name: string, layout: Layout, policy: Policy, declaredAdditions: set<Row>,
                       declaredRewrites: set<Row>, missing: seq<Row>, stale: seq<Row>): Option<Lines> {
    match Split(policy, missing, stale)
    case None => None
    case Some(delta) =>
      if Keys(delta.additions, policy.width) != declaredAdditions || Keys(delta.rewrites, policy.width) != declaredRewrites
      then None
      else
        match RewriteAll(lines, name, policy.width, policy.rewritable, delta.rewrites)
        case None => None
        case Some(rewritten) => Inserted(rewritten, name, Rendered(layout, delta.additions))
  }

  method MintBlock(lines: Lines, name: string, layout: Layout, policy: Policy, declaredAdditions: set<Row>,
                   declaredRewrites: set<Row>, missing: seq<Row>, stale: seq<Row>) returns (r: Option<Lines>)
    ensures r == MintedLines(lines, name, layout, policy, declaredAdditions, declaredRewrites, missing, stale)
  {
    hide Split, Inserted, Rendered, Keys, RewriteAll;
    var delta := SplitDelta(policy, missing, stale);
    if delta.None? {
      return None;
    }
    var additions, rewrites := delta.value.additions, delta.value.rewrites;
    if Keys(additions, policy.width) != declaredAdditions || Keys(rewrites, policy.width) != declaredRewrites {
      return None;
    }
    var rewritten := RewriteRows(lines, name, policy.width, policy.rewritable, rewrites);
    if rewritten.None? {
      return None;
    }
    r := AppendRows(rewritten.value, name, layout, additions);
  }

  /** The loop over the rewrites. */
  method RewriteRows(lines: Lines, name: string, width: nat, declared: set<Row>, rewrites: seq<Row>)
      returns (r: Option<Lines>)
    ensures r == RewriteAll(lines, name, width, declared, rewrites)
  {
    hide RewrittenLines, RewriteAll;
    var current := lines;
    RewriteNone(lines, name, width, declared, rewrites);
    for i := 0 to |rewrites|
      invariant RewriteAll(lines, name, width, declared, rewrites[..i]) == Some(current)
    {
      RewriteNext(lines, name, width, declared, rewrites, i);
      var next: Option<Lines> := None;
      if |rewrites[i]| > width {
        next := RewriteRow(current, name, width, declared, rewrites[i]);
      }
      if next.None? {
        RewriteAllFails(lines, name, width, declared, rewrites, i + 1);
        return None;
      }
      current := next.value;
    }
    assert rewrites[..|rewrites|] == rewrites;
    r := Some(current);
  }

  lemma RewriteNone(lines: Lines, name: string, width: nat, declared: set<Row>, rewrites: seq<Row>)
    ensures RewriteAll(lines, name, width, declared, rewrites[..0]) == Some(lines)
  {
  }

  lemma RewriteNext(lines: Lines, name: string, width: nat, declared: set<Row>, rewrites: seq<Row>, i: nat)
    requires i < |rewrites| && RewriteAll(lines, name, width, declared, rewrites[..i]).Some?
    ensures RewriteAll(lines, name, width, declared, rewrites[..i + 1])
         == if |rewrites[i]| <= width then None
            else RewrittenLines(RewriteAll(lines, name, width, declared, rewrites[..i]).value, name, width, declared, rewrites[i])
  {
    hide RewrittenLines;
    assert rewrites[..i + 1][..i] == rewrites[..i];
  }

  lemma {:induction false} RewriteAllFails(lines: Lines, name: string, width: nat, declared: set<Row>,
                                           rewrites: seq<Row>, n: nat)
    requires n <= |rewrites| && RewriteAll(lines, name, width, declared, rewrites[..n]).None?
    ensures RewriteAll(lines, name, width, declared, rewrites).None?
    decreases |rewrites| - n
  {
    if n < |rewrites| {
      assert rewrites[..n + 1][..n] == rewrites[..n];
      RewriteAllFails(lines, name, width, declared, rewrites, n + 1);
    } else {
      assert rewrites[..n] == rewrites;
    }
  }

  // ---- From lines to rows -------------------------------------------------

  ghost predicate Wellformed(c: Contract, name: string, rows: seq<Row>, width: nat) {
    && Placed(c.before, name) && NoValueAfterOpening(c.before, name)
    && RowsOk(rows, width) && c.items == Items(rows)
  }

  ghost predicate DistinctKeys(rows: seq<Row>, width: nat) {
    forall i, j :: 0 <= i < j < |rows| ==> Key(rows[i], width) != Key(rows[j], width)
  }

  function ReplaceRows(rows: seq<Row>, rewrites: seq<Row>, width: nat): (r: seq<Row>)
    ensures |r| == |rows| && forall i :: 0 <= i < |rows| ==> r[i] == Replaced(rows[i], rewrites, width)
  {
    seq(|rows|, i requires 0 <= i < |rows| => Replaced(rows[i], rewrites, width))
  }

  lemma {:induction false} ReplacedLast(row: Row, rewrites: seq<Row>, width: nat)
    requires rewrites != [] && DistinctKeys(rewrites, width)
    ensures var k := |rewrites| - 1;
      Replaced(row, rewrites, width)
      == if Key(rewrites[k], width) == Key(row, width) then rewrites[k] else Replaced(row, rewrites[..k], width)
    decreases |rewrites|
  {
    var k := |rewrites| - 1;
    if k > 0 {
      ReplacedLast(row, rewrites[1..], width);
      assert rewrites[1..][..k - 1] == rewrites[..k][1..];
    }
  }

  lemma ReplaceRowsOk(rows: seq<Row>, rewrites: seq<Row>, width: nat)
    requires RowsOk(rows, width) && forall i :: 0 <= i < |rewrites| ==> Shaped(rewrites[i], width)
    ensures RowsOk(ReplaceRows(rows, rewrites, width), width)
  {
    forall i | 0 <= i < |rows| ensures
        Shaped(Replaced(rows[i], rewrites, width), width)
        && Key(Replaced(rows[i], rewrites, width), width) == Key(rows[i], width) {
      ReplacedIs(rows[i], rewrites, width);
    }
  }

  /** One more replacement is one row changed. */
  lemma ReplaceNext(rows: seq<Row>, rewrites: seq<Row>, width: nat, i: nat)
    requires rewrites != [] && DistinctKeys(rewrites, width) && RowsOk(rows, width) && i < |rows|
    requires Key(rows[i], width) == Key(rewrites[|rewrites| - 1], width)
    ensures var k := |rewrites| - 1;
      ReplaceRows(rows, rewrites, width) == ReplaceRows(rows, rewrites[..k], width)[i := rewrites[k]]
  {
    hide Replaced;
    forall j | 0 <= j < |rows| ensures
        Replaced(rows[j], rewrites, width)
        == if j == i then rewrites[|rewrites| - 1] else Replaced(rows[j], rewrites[..|rewrites| - 1], width) {
      ReplacedLast(rows[j], rewrites, width);
    }
  }

  /** The rewriting loop replaces rows by key and leaves everything else. */
  lemma {:induction false} RewriteAllReplaces(c: Contract, name: string, rows: seq<Row>, width: nat, declared: set<Row>,
                                              rewrites: seq<Row>)
    requires Wellformed(c, name, rows, width) && DistinctKeys(rewrites, width)
    requires forall i :: 0 <= i < |rewrites| ==> Shaped(rewrites[i], width)
    ensures var r := RewriteAll(Text(c), name, width, declared, rewrites);
      r.Some? ==> r.value == Text(c.(items := Items(ReplaceRows(rows, rewrites, width))))
    decreases |rewrites|
  {
    hide Text, RewrittenLines, RowsOk, Placed, NoValueAfterOpening;
    if rewrites == [] {
      assert ReplaceRows(rows, rewrites, width) == rows;
    } else {
      var k := |rewrites| - 1;
      RewriteAllReplaces(c, name, rows, width, declared, rewrites[..k]);
      var before := ReplaceRows(rows, rewrites[..k], width);
      ReplaceRowsOk(rows, rewrites[..k], width);
      RewriteReplacesRow(c.(items := Items(before)), name, before, width, declared, rewrites[k]);
      if i :| 0 <= i < |rows| && Key(before[i], width) == Key(rewrites[k], width) {
        ReplacedIs(rows[i], rewrites[..k], width);
        ReplaceNext(rows, rewrites, width, i);
      }
    }
  }

  /** The script renders a row as the block lays it out. */
  ghost predicate Renders(layout: Layout, row: Row) {
    layout.PerValue? ==> row != [] && Unbroken(row)
  }

  lemma {:induction false} RenderedIsCommas(layout: Layout, rows: seq<Row>)
    requires forall i :: 0 <= i < |rows| ==> Renders(layout, rows[i])
    ensures Rendered(layout, rows) == Commas(Laid(layout, rows))
    decreases |rows|
  {
    hide RenderedRow, RowItem, WithComma, Unbroken;
    if rows != [] {
      var k := |rows| - 1;
      assert Laid(layout, rows)[..k] == Laid(layout, rows[..k]);
      RenderedIsCommas(layout, rows[..k]);
      RenderedRowIs(layout, rows[k]);
    }
  }

  lemma DeltaRows(policy: Policy, expected: set<Row>, observed: set<Row>, missing: seq<Row>, stale: seq<Row>, delta: Delta)
    requires Measured(expected, observed, missing, stale) && Split(policy, missing, stale) == Some(delta)
    requires KeysUnique(observed, policy.width) && Distinct(missing)
    requires forall o :: o in observed ==> Shaped(o, policy.width)
    ensures forall i :: 0 <= i < |delta.rewrites| ==> Shaped(delta.rewrites[i], policy.width)
    ensures DistinctKeys(delta.rewrites, policy.width)
    ensures forall i :: 0 <= i < |delta.additions| ==> Renders(PerValue, delta.additions[i])
  {
    hide Unbroken;
    var staleKeys := Keys(stale, policy.width);
    OfClassMembers(policy, staleKeys, missing, Rewrite);
    OfClassDistinct(policy, staleKeys, missing, Rewrite);
    assert forall i :: 0 <= i < |delta.rewrites| ==> delta.rewrites[i] in delta.rewrites;
    OfClassMembers(policy, staleKeys, missing, Addition);
    assert forall i :: 0 <= i < |delta.additions| ==> delta.additions[i] in delta.additions;
  }

  ghost predicate Distinct(rows: seq<Row>) {
    forall i, j :: 0 <= i < j < |rows| ==> rows[i] != rows[j]
  }

  lemma {:induction false} OfClassDistinct(policy: Policy, staleKeys: set<Row>, rows: seq<Row>, kind: Class)
    requires Distinct(rows)
    ensures Distinct(OfClass(policy, staleKeys, rows, kind))
    decreases |rows|
  {
    if rows != [] {
      var k := |rows| - 1;
      OfClassDistinct(policy, staleKeys, rows[..k], kind);
      OfClassMembers(policy, staleKeys, rows[..k], kind);
      var before := OfClass(policy, staleKeys, rows[..k], kind);
      assert forall i :: 0 <= i < |before| ==> before[i] in before;
    }
  }

  lemma ItemsOfMinted(rows: seq<Row>, delta: Delta, width: nat)
    ensures Items(ReplaceRows(rows, delta.rewrites, width)) + Items(delta.additions) == Items(Minted(rows, delta, width))
  {
    hide RowLines, Replaced;
  }

  /** Rewriting, then appending, writes the updated rows. */
  lemma RewriteThenInsert(c: Contract, name: string, rows: seq<Row>, width: nat, declared: set<Row>, delta: Delta)
    requires Wellformed(c, name, rows, width) && DistinctKeys(delta.rewrites, width)
    requires forall i :: 0 <= i < |delta.rewrites| ==> Shaped(delta.rewrites[i], width)
    requires forall i :: 0 <= i < |delta.additions| ==> Renders(PerValue, delta.additions[i])
    requires RewriteAll(Text(c), name, width, declared, delta.rewrites).Some?
    ensures Inserted(RewriteAll(Text(c), name, width, declared, delta.rewrites).value, name, Rendered(PerValue, delta.additions))
         == Some(Text(c.(items := Items(Minted(rows, delta, width)))))
  {
    hide Text, Inserted, Rendered, RewriteAll, NoValueAfterOpening, RowsOk, DistinctKeys, Laid, Minted, ReplaceRows, Renders, Shaped;
    var replaced := ReplaceRows(rows, delta.rewrites, width);
    RewriteAllReplaces(c, name, rows, width, declared, delta.rewrites);
    ReplaceRowsOk(rows, delta.rewrites, width);
    ItemsOfRowsOk(replaced);
    ItemsOfRowsOk(delta.additions);
    RenderedIsCommas(PerValue, delta.additions);
    hide Placed;
    InsertAppendsRows(c.(items := Items(replaced)), name, Items(delta.additions));
    ItemsOfMinted(rows, delta, width);
  }

  lemma MintedLinesUnfold(lines: Lines, name: string, layout: Layout, policy: Policy, declaredAdditions: set<Row>,
                          declaredRewrites: set<Row>, missing: seq<Row>, stale: seq<Row>)
    requires MintedLines(lines, name, layout, policy, declaredAdditions, declaredRewrites, missing, stale).Some?
    ensures Split(policy, missing, stale).Some?
    ensures var delta := Split(policy, missing, stale).value;
      var rewritten := RewriteAll(lines, name, policy.width, policy.rewritable, delta.rewrites);
      && rewritten.Some?
      && MintedLines(lines, name, layout, policy, declaredAdditions, declaredRewrites, missing, stale)
         == Inserted(rewritten.value, name, Rendered(layout, delta.additions))
  {
    hide Split, RewriteAll, Inserted, Rendered, Keys;
  }

  /** A minted block's lines are those of the updated rows, with everything
      around them byte for byte as before. */
  lemma MintedBlockText(c: Contract, name: string, rows: seq<Row>, policy: Policy, observed: set<Row>,
                        additions: set<Row>, rewrites: set<Row>, missing: seq<Row>, stale: seq<Row>)
    requires Wellformed(c, name, rows, policy.width) && KeysUnique(observed, policy.width)
    requires forall o :: o in observed ==> Shaped(o, policy.width)
    requires Measured(SetOf(rows), observed, missing, stale) && Distinct(missing)
    requires MintedLines(Text(c), name, PerValue, policy, additions, rewrites, missing, stale).Some?
    ensures Split(policy, missing, stale).Some?
    ensures MintedLines(Text(c), name, PerValue, policy, additions, rewrites, missing, stale)
         == Some(Text(c.(items := Items(Minted(rows, Split(policy, missing, stale).value, policy.width)))))
  {
    hide Text, Split, MintedLines, Wellformed, KeysUnique, Measured, Distinct, DistinctKeys, Items, Minted, RewriteAll, Rendered, Inserted;
    MintedLinesUnfold(Text(c), name, PerValue, policy, additions, rewrites, missing, stale);
    var delta := Split(policy, missing, stale).value;
    DeltaRows(policy, SetOf(rows), observed, missing, stale, delta);
    RewriteThenInsert(c, name, rows, policy.width, policy.rewritable, delta);
  }

  /** The rows a minted block then has are the observed ones off the exempt keys
      and the contract's own on them. */
  lemma MintedBlockDescribes(c: Contract, name: string, rows: seq<Row>, policy: Policy, observed: set<Row>,
                             additions: set<Row>, rewrites: set<Row>, missing: seq<Row>, stale: seq<Row>)
      returns (minted: seq<Row>)
    requires Wellformed(c, name, rows, policy.width) && KeysUnique(observed, policy.width)
    requires forall o :: o in observed ==> Shaped(o, policy.width)
    requires Measured(SetOf(rows), observed, missing, stale) && Distinct(missing)
    requires MintedLines(Text(c), name, PerValue, policy, additions, rewrites, missing, stale).Some?
    ensures MintedLines(Text(c), name, PerValue, policy, additions, rewrites, missing, stale) == Some(Text(c.(items := Items(minted))))
    ensures forall r :: r in minted <==> if Key(r, policy.width) in policy.exempt then r in rows else r in observed
    ensures policy.exempt == {} ==> SetOf(minted) == observed
  {
    hide Text, Split, MintedLines, KeysUnique, Measured, Distinct, Items, Minted, RowsOk, Key, Placed, NoValueAfterOpening;
    MintedBlockText(c, name, rows, policy, observed, additions, rewrites, missing, stale);
    var delta := Split(policy, missing, stale).value;
    minted := Minted(rows, delta, policy.width);
    UniqueRows(rows, policy.width);
    forall r ensures r in minted <==> if Key(r, policy.width) in policy.exempt then r in rows else r in observed {
      AcceptedDeltaDescribes(policy, rows, observed, missing, stale, delta, r);
    }
    if policy.exempt == {} { AcceptedDeltaExact(policy, rows, observed, missing, stale, delta); }
  }

  /** The contract has a row of the same key whose stored fingerprint is one. */
  ghost predicate Rewritable(rows: seq<Row>, width: nat, declared: set<Row>, row: Row) {
    Key(row, width) in declared
    && exists i :: 0 <= i < |rows| && Key(rows[i], width) == Key(row, width) && width < |rows[i]| && Fingerprint(rows[i][width])
  }

  lemma RewriteOneIff(c: Contract, name: string, rows: seq<Row>, width: nat, declared: set<Row>, row: Row)
    requires Wellformed(c, name, rows, width) && Shaped(row, width)
    ensures RewrittenLines(Text(c), name, width, declared, row).Some? <==> Rewritable(rows, width, declared, row)
  {
    hide Text, RewrittenLines, Placed, NoValueAfterOpening, Fingerprint, Key, Items;
    RewriteReplacesRow(c, name, rows, width, declared, row);
    if i :| 0 <= i < |rows| && Key(rows[i], width) == Key(row, width) {
      forall j | 0 <= j < |rows| && Key(rows[j], width) == Key(row, width) ensures j == i {}
    }
  }

  /** Earlier rewrites of other keys do not matter. */
  lemma RewritableKept(rows: seq<Row>, rewrites: seq<Row>, width: nat, declared: set<Row>, row: Row)
    requires RowsOk(rows, width) && RowsOk(ReplaceRows(rows, rewrites, width), width)
    requires forall i :: 0 <= i < |rewrites| ==> Key(rewrites[i], width) != Key(row, width)
    ensures Rewritable(ReplaceRows(rows, rewrites, width), width, declared, row) <==> Rewritable(rows, width, declared, row)
  {
    hide RowsOk, Fingerprint, Key, Replaced;
    var after := ReplaceRows(rows, rewrites, width);
    forall i | 0 <= i < |rows|
      ensures Key(after[i], width) == Key(rows[i], width)
      ensures Key(rows[i], width) == Key(row, width) ==> after[i] == rows[i] {
      ReplacedIs(rows[i], rewrites, width);
      if Key(rows[i], width) in Keys(rewrites, width) {
        var r :| r in rewrites && Key(r, width) == Key(rows[i], width);
        var j :| 0 <= j < |rewrites| && rewrites[j] == r;
      }
    }
  }

  /** Rewriting goes through exactly when every key is declared and held by a row with a fingerprint. */
  lemma {:induction false} RewriteAllIff(c: Contract, name: string, rows: seq<Row>, width: nat, declared: set<Row>,
                                         rewrites: seq<Row>)
    requires Wellformed(c, name, rows, width) && DistinctKeys(rewrites, width)
    requires forall i :: 0 <= i < |rewrites| ==> Shaped(rewrites[i], width)
    ensures RewriteAll(Text(c), name, width, declared, rewrites).Some?
      <==> forall i :: 0 <= i < |rewrites| ==> Rewritable(rows, width, declared, rewrites[i])
    decreases |rewrites|
  {
    hide Text, RewrittenLines, RowsOk, Placed, NoValueAfterOpening, Rewritable, ReplaceRows, Items, Key;
    if rewrites != [] {
      var k := |rewrites| - 1;
      RewriteAllIff(c, name, rows, width, declared, rewrites[..k]);
      RewriteAllReplaces(c, name, rows, width, declared, rewrites[..k]);
      ReplaceRowsOk(rows, rewrites[..k], width);
      var before := ReplaceRows(rows, rewrites[..k], width);
      RewriteOneIff(c.(items := Items(before)), name, before, width, declared, rewrites[k]);
      RewritableKept(rows, rewrites[..k], width, declared, rewrites[k]);
      assert forall i :: 0 <= i < k ==> rewrites[i] == rewrites[..k][i];
    }
  }

  /** Minting goes through exactly when the delta is accepted, its keys are the
      declared ones, and every rewritten row is there to rewrite. */
  lemma MintsIff(c: Contract, name: string, rows: seq<Row>, policy: Policy, observed: set<Row>,
                 additions: set<Row>, rewrites: set<Row>, missing: seq<Row>, stale: seq<Row>)
    requires Wellformed(c, name, rows, policy.width) && KeysUnique(observed, policy.width)
    requires forall o :: o in observed ==> Shaped(o, policy.width)
    requires Measured(SetOf(rows), observed, missing, stale) && Distinct(missing)
    ensures MintedLines(Text(c), name, PerValue, policy, additions, rewrites, missing, stale).Some?
      <==> && Split(policy, missing, stale).Some?
           && Keys(Split(policy, missing, stale).value.additions, policy.width) == additions
           && Keys(Split(policy, missing, stale).value.rewrites, policy.width) == rewrites
           && forall r :: r in Split(policy, missing, stale).value.rewrites ==>
                Rewritable(rows, policy.width, policy.rewritable, r)
  {
    hide Text, Split, KeysUnique, Measured, Distinct, DistinctKeys, Items, Minted, RewriteAll, Rendered, Inserted,
         Rewritable, Placed, NoValueAfterOpening, Keys, RowsOk;
    if Split(policy, missing, stale).Some? {
      var delta := Split(policy, missing, stale).value;
      DeltaRows(policy, SetOf(rows), observed, missing, stale, delta);
      RewriteAllIff(c, name, rows, policy.width, policy.rewritable, delta.rewrites);
      if RewriteAll(Text(c), name, policy.width, policy.rewritable, delta.rewrites).Some? {
        RewriteThenInsert(c, name, rows, policy.width, policy.rewritable, delta);
      }
    }
  }

  // ---- Blocks with one row per line ---------------------------------------

  ghost predicate LineBlock(c: Contract, name: string, rows: seq<Row>) {
    Placed(c.before, name) && NoValueAfterOpening(c.before, name) && c.items == Laid(OneLine, rows)
  }

  lemma NotAValue(line: string)
    requires |line| > 5 && line[5] == '('
    ensures !StartsWith(line, INDENT)
  {
    assert INDENT[5] == ' ';
    assert |line| >= 10 ==> line[..10][5] == line[5];
  }

  lemma OneLineNoValue(rows: seq<Row>, line: string)
    requires line in Joined(Laid(OneLine, rows))
    ensures !StartsWith(line, INDENT)
  {
    hide Joined, StartsWith, Join;
    JoinedLine(Laid(OneLine, rows), line);
    var item :| item in Laid(OneLine, rows) && (line in item || line in WithComma(item));
    NotAValue(line);
  }

  lemma NoValueNoMatch(lines: Lines, i: nat, row: Row, width: nat)
    requires i < |lines| && !StartsWith(lines[i], INDENT) && 0 < width <= |row|
    ensures !MatchAt(lines, i, KeyLines(row, width))
  {
    ValueLineFacts(row[0], row[0]);
    MatchFirst(lines, i, KeyLines(row, width));
  }

  lemma {:induction false} NoMatches(lines: Lines, lo: nat, hi: nat, keyLines: Lines)
    requires lo <= hi && forall i :: lo <= i < hi ==> !MatchAt(lines, i, keyLines)
    ensures Matches(lines, lo, hi, keyLines) == []
    decreases hi
  {
    hide MatchAt;
    if lo < hi { NoMatches(lines, lo, hi - 1, keyLines); }
  }

  /** No row of such a block can be rewritten: the search looks for values on lines of their own. */
  lemma LineNeverRewritten(c: Contract, name: string, rows: seq<Row>, width: nat, declared: set<Row>, row: Row)
    requires LineBlock(c, name, rows) && 0 < width < |row|
    ensures RewrittenLines(Text(c), name, width, declared, row) == None
  {
    hide Placed, StartsWith, MatchAt, KeyLines, Joined, Laid, First, OpeningIndex;
    var lines, opening, close := Text(c), OpeningIndex(c.before, name), |c.before| + |Joined(c.items)|;
    LaidOk(OneLine, rows);
    BlockFound(c, name);
    forall i | opening < i < close ensures !MatchAt(lines, i, KeyLines(row, width)) {
      if i < |c.before| {
        assert lines[i] == c.before[i];
      } else {
        assert lines[i] == Joined(c.items)[i - |c.before|];
        OneLineNoValue(rows, lines[i]);
      }
      NoValueNoMatch(lines, i, row, width);
    }
    NoMatches(lines, opening + 1, close, KeyLines(row, width));
  }

  lemma LineRewritesFail(c: Contract, name: string, rows: seq<Row>, width: nat, declared: set<Row>, rewrites: seq<Row>)
    requires LineBlock(c, name, rows) && width > 0
    ensures RewriteAll(Text(c), name, width, declared, rewrites) == if rewrites == [] then Some(Text(c)) else None
  {
    hide Text, RewrittenLines;
    if rewrites != [] {
      if |rewrites[0]| > width { LineNeverRewritten(c, name, rows, width, declared, rewrites[0]); }
      RewriteNone(Text(c), name, width, declared, rewrites);
      RewriteNext(Text(c), name, width, declared, rewrites, 0);
      RewriteAllFails(Text(c), name, width, declared, rewrites, 1);
    }
  }

  /** Minting such a block appends the additions, and goes through exactly when
      the delta is accepted as declared and rewrites nothing. */
  lemma LineBlockMints(c: Contract, name: string, rows: seq<Row>, policy: Policy, additions: set<Row>, rewrites: set<Row>,
                       missing: seq<Row>, stale: seq<Row>)
    requires LineBlock(c, name, rows) && policy.width > 0
    ensures var split := Split(policy, missing, stale);
      MintedLines(Text(c), name, OneLine, policy, additions, rewrites, missing, stale)
      == if split.Some? && Keys(split.value.additions, policy.width) == additions
            && Keys(split.value.rewrites, policy.width) == rewrites && split.value.rewrites == []
         then Some(Text(c.(items := Laid(OneLine, rows + split.value.additions)))) else None
  {
    hide Text, Split, Keys, RewriteAll, Inserted, Rendered, LineBlock, Laid;
    var split := Split(policy, missing, stale);
    if split.Some? {
      LineRewritesFail(c, name, rows, policy.width, policy.rewritable, split.value.rewrites);
      LinesAppended(c, name, rows, split.value.additions);
    }
  }

  lemma LinesAppended(c: Contract, name: string, rows: seq<Row>, added: seq<Row>)
    requires LineBlock(c, name, rows)
    ensures Inserted(Text(c), name, Rendered(OneLine, added)) == Some(Text(c.(items := Laid(OneLine, rows + added))))
  {
    hide Text, Inserted, Rendered, Placed, NoValueAfterOpening, RowItem;
    LaidOk(OneLine, rows);
    LaidOk(OneLine, added);
    RenderedIsCommas(OneLine, added);
    InsertAppendsRows(c, name, Laid(OneLine, added));
    assert Laid(OneLine, rows) + Laid(OneLine, added) == Laid(OneLine, rows + added);
  }

  /** The rows such a block then has are the observed ones off the exempt keys,
      and the contract's own on them. */
  lemma LineBlockDescribes(c: Contract, name: string, rows: seq<Row>, policy: Policy, observed: set<Row>,
                           additions: set<Row>, rewrites: set<Row>, missing: seq<Row>, stale: seq<Row>)
      returns (minted: seq<Row>)
    requires LineBlock(c, name, rows) && policy.width > 0
    requires KeysUnique(SetOf(rows), policy.width) && KeysUnique(observed, policy.width)
    requires Measured(SetOf(rows), observed, missing, stale)
    requires MintedLines(Text(c), name, OneLine, policy, additions, rewrites, missing, stale).Some?
    ensures MintedLines(Text(c), name, OneLine, policy, additions, rewrites, missing, stale)
         == Some(Text(c.(items := Laid(OneLine, minted))))
    ensures forall r :: r in minted <==> if Key(r, policy.width) in policy.exempt then r in rows else r in observed
  {
    hide Text, Split, MintedLines, KeysUnique, Measured, Laid, Minted, Key, LineBlock, Keys;
    LineBlockMints(c, name, rows, policy, additions, rewrites, missing, stale);
    var delta := Split(policy, missing, stale).value;
    minted := rows + delta.additions;
    NothingReplaced(rows, delta, policy.width);
    forall r ensures r in minted <==> if Key(r, policy.width) in policy.exempt then r in rows else r in observed {
      AcceptedDeltaDescribes(policy, rows, observed, missing, stale, delta, r);
    }
  }

  lemma NothingReplaced(rows: seq<Row>, delta: Delta, width: nat)
    requires delta.rewrites == []
    ensures Minted(rows, delta, width) == rows + delta.additions
  {
  }

  lemma UniqueRows(rows: seq<Row>, width: nat)
    requires RowsOk(rows, width)
    ensures KeysUnique(SetOf(rows), width)
  {
    hide Key;
    forall a, b | a in SetOf(rows) && b in SetOf(rows) && Key(a, width) == Key(b, width) ensures a == b {
      var i :| 0 <= i < |rows| && rows[i] == a;
      var j :| 0 <= j < |rows| && rows[j] == b;
    }
  }

  // ---- The lines determine the rows ---------------------------------------

  lemma {:induction false} OffsetGrows(i: nat, j: nat, width: nat)
    requires i < j
    ensures Offset(i, width) + width + 3 <= Offset(j, width)
    decreases j
  {
    if i < j - 1 { OffsetGrows(i, j - 1, width); }
  }

  /** Two well-formed blocks with the same text have the same rows. */
  lemma TextDeterminesRows(before: Lines, after: Lines, a: seq<Row>, b: seq<Row>, width: nat)
    requires RowsOk(a, width) && RowsOk(b, width)
    requires Text(Contract(before, Items(a), after)) == Text(Contract(before, Items(b), after))
    ensures a == b
  {
    hide Text, Joined, Items, RowAt, ValueLine;
    TextLength(before, after, a, width);
    TextLength(before, after, b, width);
    if |a| < |b| { OffsetGrows(|a|, |b|, width); }
    if |b| < |a| { OffsetGrows(|b|, |a|, width); }
    forall i | 0 <= i < |a| ensures a[i] == b[i] {
      RowStands(Contract(before, Items(a), after), a, width, i);
      RowStands(Contract(before, Items(b), after), b, width, i);
      SameRowAt(Text(Contract(before, Items(a), after)), |before| + Offset(i, width), a[i], b[i]);
    }
  }

  lemma TextLength(before: Lines, after: Lines, rows: seq<Row>, width: nat)
    requires RowsOk(rows, width)
    ensures |Text(Contract(before, Items(rows), after))| == |before| + Offset(|rows|, width) + 1 + |after|
  {
    hide Joined;
    JoinedLength(rows, width);
  }

  lemma SameRowAt(lines: Lines, at: nat, a: Row, b: Row)
    requires RowAt(lines, at, a) && RowAt(lines, at, b) && |a| == |b|
    ensures a == b
  {
    hide ValueLine;
    forall k | 0 <= k < |a| ensures a[k] == b[k] {
      assert lines[at + 1 + k] == ValueLine(a[k], k == |a| - 1) == ValueLine(b[k], k == |a| - 1);
      ValueLineInjective(a[k], b[k], k == |a| - 1);
    }
  }

  lemma ValueLineInjective(a: string, b: string, last: bool)
    requires ValueLine(a, last) == ValueLine(b, last)
    ensures a == b
  {
    var tail := if last then 1 else 2;
    var line := ValueLine(a, last);
    assert line[10..|line| - tail] == a && line[10..|line| - tail] == b;
  }
}
