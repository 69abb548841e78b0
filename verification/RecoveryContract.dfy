/** scripts/mint_recovery_contract_v25.py, the delta loop of main: minting one
    block after the other in a contract that holds several. */
module RecoveryContract {
  import opened Wrappers
  import opened RecoveryDelta
  import opened RecoveryText
  import opened RecoveryBlocks
  import opened RecoveryMint

  /** One block: the lines that lead up to its rows, its header among them, and its rows. */
  datatype Section = Section(name: string, layout: Layout, preamble: Lines, rows: seq<Row>, width: nat)

  /** A block and what closes it. */
  function SectionText(s: Section): Lines { s.preamble + Joined(Laid(s.layout, s.rows)) + ["),"] }

  function DocumentText(sections: seq<Section>, tail: Lines): Lines {
    if sections == [] then tail else SectionText(sections[0]) + DocumentText(sections[1..], tail)
  }

  /** What precedes the rows of the k-th block. */
  function Before(sections: seq<Section>, k: nat): Lines
    requires k < |sections|
  {
    if k == 0 then sections[0].preamble else SectionText(sections[0]) + Before(sections[1..], k - 1)
  }

  function At(sections: seq<Section>, k: nat, tail: Lines, rows: seq<Row>): Contract
    requires k < |sections|
  {
    Contract(Before(sections, k), Laid(sections[k].layout, rows), DocumentText(sections[k + 1..], tail))
  }

  /** A block can be found by its name. */
  ghost predicate Findable(s: Section) {
    && s.name != "" && s.name[0] != ' '
    && Placed(s.preamble, s.name) && NoValueAfterOpening(s.preamble, s.name)
  }

  ghost predicate NoHeader(lines: Lines, name: string) {
    forall line :: line in lines ==> !Header(line, name)
  }

  /** Every block can be found, and none of its headers appears before it. */
  ghost predicate Document(sections: seq<Section>) {
    && (forall i :: 0 <= i < |sections| ==> Findable(sections[i]))
    && forall i, j :: 0 <= i < j < |sections| ==> NoHeader(sections[i].preamble, sections[j].name)
  }

  // ---- One block among several --------------------------------------------

  lemma RowsNoHeader(layout: Layout, rows: seq<Row>, name: string)
    requires name != "" && name[0] != ' '
    ensures NoHeader(Joined(Laid(layout, rows)), name) && NoHeader(["),"], name)
  {
    hide Header, Joined, RowItem;
    CloseNoHeader(name);
    forall line | line in Joined(Laid(layout, rows)) ensures !Header(line, name) {
      JoinedLine(Laid(layout, rows), line);
      var item :| item in Laid(layout, rows) && (line in item || line in WithComma(item));
      var i :| 0 <= i < |rows| && Laid(layout, rows)[i] == item;
      ItemIndented(layout, rows[i], line);
      IndentedNoHeader(line, name);
    }
  }

  lemma ItemIndented(layout: Layout, row: Row, line: string)
    requires line in RowItem(layout, row) || line in WithComma(RowItem(layout, row))
    ensures line != "" && line[0] == ' '
  {
    hide Join;
    if layout.PerValue? { RowLineIndented(row, line); }
  }

  lemma CloseNoHeader(name: string)
    requires name != ""
    ensures !Header("),", name)
  {
    var line := "),";
    if |name| == 1 { assert line[..2][1] == ',' && (name + "(")[1] == '('; }
  }

  lemma IndentedNoHeader(line: string, name: string)
    requires line != "" && line[0] == ' ' && name != "" && name[0] != ' '
    ensures !Header(line, name)
  {
    assert (name + "(")[0] == name[0] && (name + " AS (")[0] == name[0] && ("WITH " + name + "(")[0] == 'W';
    PrefixHead(line, name + "(");
    PrefixHead(line, name + " AS (");
    PrefixHead(line, "WITH " + name + "(");
  }

  lemma PrefixHead(line: string, prefix: string)
    requires prefix != "" && line != ""
    ensures StartsWith(line, prefix) ==> line[0] == prefix[0]
  {
    if StartsWith(line, prefix) { assert line[..|prefix|][0] == prefix[0]; }
  }

  lemma RowLineIndented(row: Row, line: string)
    requires line in RowLines(row) || line in WithComma(RowLines(row))
    ensures line != "" && line[0] == ' '
  {
    var lines := RowLines(row);
    forall i | 0 <= i < |lines| ensures lines[i] != "" && lines[i][0] == ' ' {
      if 0 < i < |lines| - 1 { assert lines[i] == ValueLine(row[i - 1], i - 1 == |row| - 1); }
    }
    assert forall i :: 0 <= i < |lines| ==> WithComma(lines)[i] == lines[i] || WithComma(lines)[i] == lines[i] + ",";
  }

  lemma {:induction false} FirstAfter(head: Lines, lines: Lines, lo: nat, hi: nat, kind: Kind)
    requires lo <= hi <= |lines|
    ensures First(head + lines, |head| + lo, |head| + hi, kind) == |head| + First(lines, lo, hi, kind)
    decreases hi - lo
  {
    if lo < hi {
      assert (head + lines)[|head| + lo] == lines[lo];
      FirstAfter(head, lines, lo + 1, hi, kind);
    }
  }

  /** Lines that hold no header of the name do not hide the block behind them. */
  lemma PlacedAfter(head: Lines, before: Lines, name: string)
    requires NoHeader(head, name) && Placed(before, name) && NoValueAfterOpening(before, name)
    ensures Placed(head + before, name) && NoValueAfterOpening(head + before, name)
  {
    hide NeedsComma, Header, Is, First;
    var lines := head + before;
    var header := First(before, 0, |before|, HeaderOf(name));
    forall j | 0 <= j < |head| ensures !Is(lines[j], HeaderOf(name)) { HeaderIs(head, lines, j, name); }
    FirstPast(lines, 0, |head|, |lines|, HeaderOf(name));
    FirstAfter(head, before, 0, |before|, HeaderOf(name));
    FirstAfter(head, before, header + 1, |before|, Closing);
    FirstAfter(head, before, header, |before|, OpeningLine);
    assert lines[|lines| - 1] == before[|before| - 1];
    forall i | OpeningIndex(lines, name) < i < |lines| ensures !StartsWith(lines[i], INDENT) {
      assert lines[i] == before[i - |head|];
    }
  }

  lemma HeaderIs(head: Lines, lines: Lines, j: nat, name: string)
    requires NoHeader(head, name) && head <= lines && j < |head|
    ensures !Is(lines[j], HeaderOf(name))
  {
    assert lines[j] == head[j] && head[j] in head;
  }

  lemma SectionNoHeader(s: Section, name: string)
    requires NoHeader(s.preamble, name) && name != "" && name[0] != ' '
    ensures NoHeader(SectionText(s), name)
  {
    hide Header, Joined;
    RowsNoHeader(s.layout, s.rows, name);
  }

  lemma {:induction false} BlockPlaced(sections: seq<Section>, k: nat)
    requires Document(sections) && k < |sections|
    ensures Placed(Before(sections, k), sections[k].name) && NoValueAfterOpening(Before(sections, k), sections[k].name)
    decreases k
  {
    hide Placed, NoValueAfterOpening, NoHeader, SectionText;
    assert Findable(sections[k]);
    if k > 0 {
      DocumentRest(sections);
      BlockPlaced(sections[1..], k - 1);
      SectionNoHeader(sections[0], sections[k].name);
      PlacedAfter(SectionText(sections[0]), Before(sections[1..], k - 1), sections[k].name);
    }
  }

  lemma DocumentRest(sections: seq<Section>)
    requires Document(sections) && sections != []
    ensures Document(sections[1..])
  {
    hide Findable, NoHeader;
  }

  /** The whole document is one contract around any of its blocks. */
  lemma {:induction false} DocumentSplit(sections: seq<Section>, k: nat, tail: Lines)
    requires k < |sections|
    ensures DocumentText(sections, tail) == Text(At(sections, k, tail, sections[k].rows))
    decreases k
  {
    hide Joined, Laid;
    if k > 0 {
      DocumentSplit(sections[1..], k - 1, tail);
      assert sections[1..][k..] == sections[k + 1..];
      var s, c := SectionText(sections[0]), At(sections[1..], k - 1, tail, sections[k].rows);
      Associate4(s, c.before, Joined(c.items), ["),"] + c.after);
    } else {
      var s := sections[0];
      Associate4(s.preamble, Joined(Laid(s.layout, s.rows)), ["),"], DocumentText(sections[1..], tail));
    }
  }

  lemma Associate4(a: Lines, b: Lines, c: Lines, d: Lines)
    ensures a + (b + c + d) == a + b + c + d && a + b + c + d == a + b + (c + d)
  {
  }

  function WithRows(sections: seq<Section>, k: nat, rows: seq<Row>): seq<Section>
    requires k < |sections|
  {
    sections[k := sections[k].(rows := rows)]
  }

  lemma {:induction false} BeforeKept(sections: seq<Section>, k: nat, rows: seq<Row>)
    requires k < |sections|
    ensures Before(WithRows(sections, k, rows), k) == Before(sections, k)
    decreases k
  {
    hide SectionText;
    if k > 0 {
      BeforeKept(sections[1..], k - 1, rows);
      assert WithRows(sections, k, rows)[1..] == WithRows(sections[1..], k - 1, rows);
    }
  }

  /** Changing the rows of one block is changing the items of that contract. */
  lemma DocumentChanged(sections: seq<Section>, k: nat, tail: Lines, rows: seq<Row>)
    requires k < |sections|
    ensures Text(At(sections, k, tail, rows)) == DocumentText(WithRows(sections, k, rows), tail)
  {
    hide Text, DocumentText;
    var changed := WithRows(sections, k, rows);
    DocumentSplit(changed, k, tail);
    BeforeKept(sections, k, rows);
    assert changed[k + 1..] == sections[k + 1..];
  }

  lemma DocumentKept(sections: seq<Section>, k: nat, rows: seq<Row>)
    requires Document(sections) && k < |sections|
    ensures Document(WithRows(sections, k, rows))
  {
    hide Placed, NoValueAfterOpening, NoHeader;
    var changed := WithRows(sections, k, rows);
    forall i | 0 <= i < |changed| ensures Findable(changed[i]) { assert Findable(sections[i]); }
    forall i, j | 0 <= i < j < |changed| ensures NoHeader(changed[i].preamble, changed[j].name) {
      assert NoHeader(sections[i].preamble, sections[j].name);
    }
  }

  // ---- The loop over the blocks -------------------------------------------

  /** One turn of the loop: the declarations for a block and its measured difference. */
  datatype Job = Job(name: string, layout: Layout, policy: Policy, additions: set<Row>, rewrites: set<Row>,
                     missing: seq<Row>, stale: seq<Row>)

  function MintedAll(lines: Lines, jobs: seq<Job>): Option<Lines> {
    if jobs == [] then Some(lines) else
      var j := jobs[|jobs| - 1];
      match MintedAll(lines, jobs[..|jobs| - 1])
      case None => None
      case Some(next) => MintedBy(next, j)
  }

  method MintContract(lines: Lines, jobs: seq<Job>) returns (r: Option<Lines>)
    ensures r == MintedAll(lines, jobs)
  {
    hide MintedLines;
    var current := lines;
    for i := 0 to |jobs|
      invariant MintedAll(lines, jobs[..i]) == Some(current)
    {
      assert jobs[..i + 1][..i] == jobs[..i];
      var j := jobs[i];
      var next := MintBlock(current, j.name, j.layout, j.policy, j.additions, j.rewrites, j.missing, j.stale);
      if next.None? {
        MintedAllFails(lines, jobs, i + 1);
        return None;
      }
      current := next.value;
    }
    assert jobs[..|jobs|] == jobs;
    r := Some(current);
  }

  lemma {:induction false} MintedAllFails(lines: Lines, jobs: seq<Job>, n: nat)
    requires n <= |jobs| && MintedAll(lines, jobs[..n]).None?
    ensures MintedAll(lines, jobs).None?
    decreases |jobs| - n
  {
    hide MintedLines;
    if n < |jobs| {
      assert jobs[..n + 1][..n] == jobs[..n];
      MintedAllFails(lines, jobs, n + 1);
    } else {
      assert jobs[..n] == jobs;
    }
  }

  /** A job addresses a well-formed block and carries what measuring it against
      the database found. One value per line asks for a key and a fingerprint in
      each row, without line breaks. */
  ghost predicate Fits(job: Job, s: Section, observed: set<Row>) {
    && job.name == s.name && job.layout == s.layout && job.policy.width == s.width > 0
    && KeysUnique(SetOf(s.rows), s.width) && KeysUnique(observed, s.width)
    && Measured(SetOf(s.rows), observed, job.missing, job.stale)
    && (s.layout.PerValue? ==>
          RowsOk(s.rows, s.width) && Distinct(job.missing) && forall o :: o in observed ==> Shaped(o, s.width))
  }

  /** One turn of the loop on the given lines. */
  function MintedBy(lines: Lines, job: Job): Option<Lines> {
    MintedLines(lines, job.name, job.layout, job.policy, job.additions, job.rewrites, job.missing, job.stale)
  }

  /** Each job addresses a block of its own. */
  ghost predicate Addressed(jobs: seq<Job>, at: seq<nat>, sections: seq<Section>, observed: seq<set<Row>>) {
    && |at| == |observed| == |jobs|
    && (forall i :: 0 <= i < |jobs| ==> at[i] < |sections| && Fits(jobs[i], sections[at[i]], observed[i]))
    && forall i, j :: 0 <= i < j < |jobs| ==> at[i] != at[j]
  }

  /** The rows describe the database: exactly its rows, off the keys allowed to
      diverge, and the contract's own rows on those. */
  ghost predicate Describes(rows: seq<Row>, before: seq<Row>, policy: Policy, observed: set<Row>) {
    forall r :: r in rows <==> if Key(r, policy.width) in policy.exempt then r in before else r in observed
  }

  /** Same blocks in the same places; the rows of the others are untouched. */
  ghost predicate Updated(minted: seq<Section>, sections: seq<Section>, jobs: seq<Job>, at: seq<nat>, observed: seq<set<Row>>)
    requires Addressed(jobs, at, sections, observed)
  {
    && |minted| == |sections|
    && (forall k :: 0 <= k < |sections| ==> minted[k] == sections[k].(rows := minted[k].rows))
    && (forall k :: 0 <= k < |sections| && k !in at ==> minted[k] == sections[k])
    && forall i :: 0 <= i < |jobs| ==>
         Describes(minted[at[i]].rows, sections[at[i]].rows, jobs[i].policy, observed[i])
  }

  /** One turn makes its own block describe the database and leaves every other line as it is. */
  lemma BlockMinted(sections: seq<Section>, tail: Lines, k: nat, job: Job, observed: set<Row>) returns (rows: seq<Row>)
    requires Document(sections) && k < |sections| && Fits(job, sections[k], observed)
    requires MintedBy(DocumentText(sections, tail), job).Some?
    ensures MintedBy(DocumentText(sections, tail), job) == Some(DocumentText(WithRows(sections, k, rows), tail))
    ensures Describes(rows, sections[k].rows, job.policy, observed)
  {
    hide MintedLines, Text, DocumentText, Document, RowsOk, KeysUnique, Measured, Distinct, Placed, NoValueAfterOpening, Key,
         Shaped, Laid;
    var s := sections[k];
    var c := At(sections, k, tail, s.rows);
    DocumentSplit(sections, k, tail);
    BlockPlaced(sections, k);
    if s.layout.PerValue? {
      ItemsLaid(s.rows);
      rows := MintedBlockDescribes(c, s.name, s.rows, job.policy, observed, job.additions, job.rewrites, job.missing, job.stale);
      ItemsLaid(rows);
    } else {
      rows := LineBlockDescribes(c, s.name, s.rows, job.policy, observed, job.additions, job.rewrites, job.missing, job.stale);
    }
    DocumentChanged(sections, k, tail, rows);
  }

  lemma ItemsLaid(rows: seq<Row>)
    ensures Items(rows) == Laid(PerValue, rows)
  {
  }

  lemma AddressedPrefix(jobs: seq<Job>, at: seq<nat>, sections: seq<Section>, observed: seq<set<Row>>)
    requires Addressed(jobs, at, sections, observed) && jobs != []
    ensures var n := |jobs| - 1; Addressed(jobs[..n], at[..n], sections, observed[..n]) && at[n] !in at[..n]
  {
    hide Fits;
  }

  /** When the loop goes through, every addressed block describes its own
      observed rows, the rows of every other block are untouched, and so is
      every line outside the blocks. */
  lemma {:induction false} ContractDescribes(sections: seq<Section>, tail: Lines, jobs: seq<Job>, at: seq<nat>,
                                             observed: seq<set<Row>>) returns (minted: seq<Section>)
    requires Document(sections) && Addressed(jobs, at, sections, observed)
    requires MintedAll(DocumentText(sections, tail), jobs).Some?
    ensures MintedAll(DocumentText(sections, tail), jobs) == Some(DocumentText(minted, tail))
    ensures Document(minted) && Updated(minted, sections, jobs, at, observed)
    decreases |jobs|
  {
    hide DocumentText, MintedBy, Document, Fits, Describes;
    if jobs == [] {
      minted := sections;
    } else {
      var n := |jobs| - 1;
      AddressedPrefix(jobs, at, sections, observed);
      var before := ContractDescribes(sections, tail, jobs[..n], at[..n], observed[..n]);
      assert before[at[n]] == sections[at[n]];
      var rows := BlockMinted(before, tail, at[n], jobs[n], observed[n]);
      minted := WithRows(before, at[n], rows);
      DocumentKept(before, at[n], rows);
      hide Addressed;
      UpdatedNext(sections, jobs, at, observed, before, rows);
    }
  }

  lemma UpdatedNext(sections: seq<Section>, jobs: seq<Job>, at: seq<nat>, observed: seq<set<Row>>,
                    before: seq<Section>, rows: seq<Row>)
    requires Addressed(jobs, at, sections, observed) && jobs != []
    requires var n := |jobs| - 1;
      && Addressed(jobs[..n], at[..n], sections, observed[..n])
      && Updated(before, sections, jobs[..n], at[..n], observed[..n])
      && Describes(rows, sections[at[n]].rows, jobs[n].policy, observed[n])
    ensures Updated(WithRows(before, at[|jobs| - 1], rows), sections, jobs, at, observed)
  {
    hide Fits, Describes;
    var n := |jobs| - 1;
    var minted := WithRows(before, at[n], rows);
    forall k | 0 <= k < |sections| && k !in at ensures minted[k] == sections[k] {
      assert k !in at[..n] && at[n] in at;
    }
    forall i | 0 <= i < |jobs|
      ensures Describes(minted[at[i]].rows, sections[at[i]].rows, jobs[i].policy, observed[i]) {
      if i < n { assert at[..n][i] == at[i] && jobs[..n][i] == jobs[i] && observed[..n][i] == observed[i]; }
    }
  }

  // ---- When the loop goes through -----------------------------------------

  /** The block's difference is accepted, it is the declared one, and every row
      to rewrite is there, on lines of its own, with a fingerprint. */
  ghost predicate Goes(job: Job, s: Section) {
    var split := Split(job.policy, job.missing, job.stale);
    && split.Some?
    && Keys(split.value.additions, s.width) == job.additions && Keys(split.value.rewrites, s.width) == job.rewrites
    && forall r :: r in split.value.rewrites ==> s.layout.PerValue? && Rewritable(s.rows, s.width, job.policy.rewritable, r)
  }

  lemma BlockMintsIff(sections: seq<Section>, tail: Lines, k: nat, job: Job, observed: set<Row>)
    requires Document(sections) && k < |sections| && Fits(job, sections[k], observed)
    ensures MintedBy(DocumentText(sections, tail), job).Some? <==> Goes(job, sections[k])
  {
    hide MintedLines, Text, DocumentText, Document, RowsOk, KeysUnique, Measured, Distinct, Placed, NoValueAfterOpening, Key,
         Shaped, Laid, Split, Keys, Rewritable;
    var s := sections[k];
    var c := At(sections, k, tail, s.rows);
    DocumentSplit(sections, k, tail);
    BlockPlaced(sections, k);
    if s.layout.PerValue? {
      ItemsLaid(s.rows);
      MintsIff(c, s.name, s.rows, job.policy, observed, job.additions, job.rewrites, job.missing, job.stale);
    } else {
      LineBlockMints(c, s.name, s.rows, job.policy, job.additions, job.rewrites, job.missing, job.stale);
      var split := Split(job.policy, job.missing, job.stale);
      if split.Some? && split.value.rewrites != [] { assert split.value.rewrites[0] in split.value.rewrites; }
    }
  }

  /** The loop goes through exactly when each turn would on the contract as it was. */
  lemma {:induction false} ContractMintsIff(sections: seq<Section>, tail: Lines, jobs: seq<Job>, at: seq<nat>,
                                            observed: seq<set<Row>>)
    requires Document(sections) && Addressed(jobs, at, sections, observed)
    ensures MintedAll(DocumentText(sections, tail), jobs).Some?
      <==> forall i :: 0 <= i < |jobs| ==> Goes(jobs[i], sections[at[i]])
    decreases |jobs|
  {
    hide DocumentText, MintedBy, Document, Fits, Describes, Goes;
    if jobs != [] {
      var n := |jobs| - 1;
      AddressedPrefix(jobs, at, sections, observed);
      ContractMintsIff(sections, tail, jobs[..n], at[..n], observed[..n]);
      assert forall i :: 0 <= i < n ==> jobs[..n][i] == jobs[i] && at[..n][i] == at[i];
      if MintedAll(DocumentText(sections, tail), jobs[..n]).Some? {
        var before := ContractDescribes(sections, tail, jobs[..n], at[..n], observed[..n]);
        assert before[at[n]] == sections[at[n]];
        BlockMintsIff(before, tail, at[n], jobs[n], observed[n]);
      }
    }
  }
}
