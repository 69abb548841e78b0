/** scripts/mint_recovery_contract_v25.py and _v21.py: classifying the measured
    difference between a contract block and the database, and what accepting
    it means for the rows. */
module RecoveryDelta {
  import opened Wrappers

  type Row = seq<string>

  /** The declarations of one block: key width, rewritable keys, keys allowed to
      diverge, and which keys may be added. */
  datatype Policy = Policy(width: nat, rewritable: set<Row>, exempt: set<Row>, allowed: Row -> bool)

  datatype Delta = Delta(additions: seq<Row>, rewrites: seq<Row>)

  function Key(row: Row, width: nat): Row {
    if |row| <= width then row else row[..width]
  }

  function Keys(rows: seq<Row>, width: nat): set<Row> {
    set r | r in rows :: Key(r, width)
  }

  datatype Class = Exempt | Rewrite | Addition | Refusal

  function ClassOf(policy: Policy, staleKeys: set<Row>, row: Row): Class {
    var key := Key(row, policy.width);
    if key in policy.exempt then Exempt
    else if key in staleKeys then if key in policy.rewritable then Rewrite else Refusal
    else if policy.allowed(key) then Addition
    else Refusal
  }

  /** The rows of one class, in order. */
  function OfClass(policy: Policy, staleKeys: set<Row>, rows: seq<Row>, kind: Class): seq<Row> {
    if rows == [] then [] else
      var k := |rows| - 1;
      OfClass(policy, staleKeys, rows[..k], kind)
      + if ClassOf(policy, staleKeys, rows[k]) == kind then [rows[k]] else []
  }

  predicate Orphan(policy: Policy, rewritten: set<Row>, row: Row) {
    Key(row, policy.width) !in rewritten && Key(row, policy.width) !in policy.exempt
  }

  /** The split, or None when some row is refused or orphaned. */
  function Split(policy: Policy, missing: seq<Row>, stale: seq<Row>): Option<Delta> {
    var staleKeys := Keys(stale, policy.width);
    var rewrites := OfClass(policy, staleKeys, missing, Rewrite);
    if OfClass(policy, staleKeys, missing, Refusal) == []
       && forall r :: r in stale ==> !Orphan(policy, Keys(rewrites, policy.width), r)
    then Some(Delta(OfClass(policy, staleKeys, missing, Addition), rewrites))
    else None
  }

  method SplitDelta(policy: Policy, missing: seq<Row>, stale: seq<Row>) returns (delta: Option<Delta>)
    ensures delta == Split(policy, missing, stale)
  {
    var staleKeys := Keys(stale, policy.width);
    var additions, rewrites, refused := [], [], [];
    for i := 0 to |missing|
      invariant additions == OfClass(policy, staleKeys, missing[..i], Addition)
      invariant rewrites == OfClass(policy, staleKeys, missing[..i], Rewrite)
      invariant refused == OfClass(policy, staleKeys, missing[..i], Refusal)
    {
      assert missing[..i + 1][..i] == missing[..i];
      var row := missing[i];
      var key := Key(row, policy.width);
      if key in policy.exempt {
        continue;
      }
      if key in staleKeys {
        if key in policy.rewritable {
          rewrites := rewrites + [row];
        } else {
          refused := refused + [row];
        }
      } else if policy.allowed(key) {
        additions := additions + [row];
      } else {
        refused := refused + [row];
      }
    }
    assert missing[..|missing|] == missing;
    var rewritten := Keys(rewrites, policy.width);
    var orphans := [];
    for i := 0 to |stale|
      invariant orphans == [] <==> forall j :: 0 <= j < i ==> !Orphan(policy, rewritten, stale[j])
    {
      if Orphan(policy, rewritten, stale[i]) {
        orphans := orphans + [stale[i]];
      }
    }
    if refused != [] || orphans != [] {
      return None;
    }
    delta := Some(Delta(additions, rewrites));
  }

  lemma {:induction false} OfClassMembers(policy: Policy, staleKeys: set<Row>, rows: seq<Row>, kind: Class)
    ensures forall r ::
      r in OfClass(policy, staleKeys, rows, kind) <==> r in rows && ClassOf(policy, staleKeys, r) == kind
    decreases |rows|
  {
    if rows != [] {
      var k := |rows| - 1;
      OfClassMembers(policy, staleKeys, rows[..k], kind);
      assert rows == rows[..k] + [rows[k]];
    }
  }

  // ---- What acceptance means ----------------------------------------------

  ghost predicate KeysUnique(rows: set<Row>, width: nat) {
    forall a, b :: a in rows && b in rows && Key(a, width) == Key(b, width) ==> a == b
  }

  /** The two sides of the measured difference: what only the database has, and what only the contract has. */
  ghost predicate Measured(expected: set<Row>, observed: set<Row>, missing: seq<Row>, stale: seq<Row>) {
    && (forall r :: r in missing <==> r in observed && r !in expected)
    && (forall r :: r in stale <==> r in expected && r !in observed)
  }

  /** The row of the same key among the replacements, or the row itself. */
  function Replaced(row: Row, rewrites: seq<Row>, width: nat): Row {
    if rewrites == [] then row
    else if Key(rewrites[0], width) == Key(row, width) then rewrites[0]
    else Replaced(row, rewrites[1..], width)
  }

  /** The rows of the minted block: replaced by key where a rewrite says so, then the additions. */
  function Minted(expected: seq<Row>, delta: Delta, width: nat): seq<Row> {
    seq(|expected|, i requires 0 <= i < |expected| => Replaced(expected[i], delta.rewrites, width)) + delta.additions
  }

  function SetOf(rows: seq<Row>): set<Row> { set r | r in rows }

  lemma {:induction false} ReplacedIs(row: Row, rewrites: seq<Row>, width: nat)
    ensures Key(Replaced(row, rewrites, width), width) == Key(row, width)
    ensures Key(row, width) in Keys(rewrites, width) ==> Replaced(row, rewrites, width) in rewrites
    ensures Key(row, width) !in Keys(rewrites, width) ==> Replaced(row, rewrites, width) == row
  {
    if rewrites != [] {
      ReplacedIs(row, rewrites[1..], width);
      assert rewrites == [rewrites[0]] + rewrites[1..];
    }
  }

  lemma MintedMembers(expected: seq<Row>, delta: Delta, width: nat, r: Row)
    ensures r in Minted(expected, delta, width) <==>
      r in delta.additions || exists e :: e in expected && r == Replaced(e, delta.rewrites, width)
  {
    var minted := Minted(expected, delta, width);
    if e :| e in expected && r == Replaced(e, delta.rewrites, width) {
      var i :| 0 <= i < |expected| && expected[i] == e;
      assert minted[i] == r;
    }
    if r in minted && r !in delta.additions {
      var i :| 0 <= i < |minted| && minted[i] == r;
      assert i < |expected| && expected[i] in expected;
    }
  }

  /** Off the exempt keys the minted rows are exactly the observed ones; on the
      exempt keys the contract keeps its own. */
  lemma AcceptedDeltaDescribes(policy: Policy, expected: seq<Row>, observed: set<Row>,
                               missing: seq<Row>, stale: seq<Row>, delta: Delta, r: Row)
    requires KeysUnique(SetOf(expected), policy.width) && KeysUnique(observed, policy.width)
    requires Measured(SetOf(expected), observed, missing, stale)
    requires Split(policy, missing, stale) == Some(delta)
    ensures r in Minted(expected, delta, policy.width) <==>
      if Key(r, policy.width) in policy.exempt then r in expected else r in observed
  {
    var w := policy.width;
    var staleKeys := Keys(stale, w);
    OfClassMembers(policy, staleKeys, missing, Addition);
    OfClassMembers(policy, staleKeys, missing, Rewrite);
    OfClassMembers(policy, staleKeys, missing, Refusal);
    MintedMembers(expected, delta, w, r);
    assert forall e :: e in SetOf(expected) <==> e in expected;
    forall e | e in expected ensures
        var m := Replaced(e, delta.rewrites, w);
        Key(m, w) == Key(e, w) && (Key(e, w) in policy.exempt ==> m == e)
        && (Key(e, w) !in policy.exempt ==> m in observed && (e in observed ==> m == e)) {
      ReplacedIs(e, delta.rewrites, w);
      if e !in observed { assert e in stale; }
    }
    if r in observed && Key(r, w) !in policy.exempt && r !in delta.additions {
      if r in expected {
        assert Replaced(r, delta.rewrites, w) == r;
      } else {
        assert r in delta.rewrites && Key(r, w) in staleKeys;
        var e :| e in stale && Key(e, w) == Key(r, w);
        assert Replaced(e, delta.rewrites, w) in observed;
      }
    }
  }

  /** Without exemptions the minted rows are the observed rows. */
  lemma AcceptedDeltaExact(policy: Policy, expected: seq<Row>, observed: set<Row>,
                           missing: seq<Row>, stale: seq<Row>, delta: Delta)
    requires KeysUnique(SetOf(expected), policy.width) && KeysUnique(observed, policy.width)
    requires Measured(SetOf(expected), observed, missing, stale)
    requires Split(policy, missing, stale) == Some(delta) && policy.exempt == {}
    ensures SetOf(Minted(expected, delta, policy.width)) == observed
  {
    forall r ensures r in SetOf(Minted(expected, delta, policy.width)) <==> r in observed {
      AcceptedDeltaDescribes(policy, expected, observed, missing, stale, delta, r);
    }
  }

  /** Measuring again after minting finds only rows with exempt keys, on either side. */
  lemma LeftoversAreExempt(policy: Policy, expected: seq<Row>, observed: set<Row>, missing: seq<Row>, stale: seq<Row>,
                           delta: Delta, missing': seq<Row>, stale': seq<Row>)
    requires KeysUnique(SetOf(expected), policy.width) && KeysUnique(observed, policy.width)
    requires Measured(SetOf(expected), observed, missing, stale)
    requires Split(policy, missing, stale) == Some(delta)
    requires Measured(SetOf(Minted(expected, delta, policy.width)), observed, missing', stale')
    ensures forall r :: r in missing' + stale' ==> Key(r, policy.width) in policy.exempt
  {
    forall r | r in missing' + stale' ensures Key(r, policy.width) in policy.exempt {
      AcceptedDeltaDescribes(policy, expected, observed, missing, stale, delta, r);
    }
  }

  /** Every change off the exempt keys is declared: a changed row is rewritable,
      a new row may be added, and no row just disappears. */
  ghost predicate DeltaDeclared(policy: Policy, expected: set<Row>, observed: set<Row>) {
    && (forall o :: o in observed - expected && Key(o, policy.width) !in policy.exempt ==>
          if exists e :: e in expected - observed && Key(e, policy.width) == Key(o, policy.width)
          then Key(o, policy.width) in policy.rewritable else policy.allowed(Key(o, policy.width)))
    && (forall e :: e in expected - observed && Key(e, policy.width) !in policy.exempt ==>
          exists o :: o in observed - expected && Key(o, policy.width) == Key(e, policy.width))
  }

  lemma AcceptedIffDeclared(policy: Policy, expected: set<Row>, observed: set<Row>, missing: seq<Row>, stale: seq<Row>)
    requires Measured(expected, observed, missing, stale)
    ensures Split(policy, missing, stale).Some? <==> DeltaDeclared(policy, expected, observed)
  {
    hide Key, OfClass, ClassOf, Keys;
    NothingRefusedIff(policy, expected, observed, missing, stale);
    NothingOrphanedIff(policy, expected, observed, missing, stale);
  }

  ghost predicate Changed(expected: set<Row>, observed: set<Row>, width: nat, o: Row) {
    exists e :: e in expected - observed && Key(e, width) == Key(o, width)
  }

  lemma ChangedIff(policy: Policy, expected: set<Row>, observed: set<Row>, missing: seq<Row>, stale: seq<Row>, o: Row)
    requires Measured(expected, observed, missing, stale)
    ensures Key(o, policy.width) in Keys(stale, policy.width) <==> Changed(expected, observed, policy.width, o)
  {
    hide Key;
    if e :| e in expected - observed && Key(e, policy.width) == Key(o, policy.width) { assert e in stale; }
  }

  lemma NothingRefusedIff(policy: Policy, expected: set<Row>, observed: set<Row>, missing: seq<Row>, stale: seq<Row>)
    requires Measured(expected, observed, missing, stale)
    ensures OfClass(policy, Keys(stale, policy.width), missing, Refusal) == [] <==>
      forall o :: o in observed - expected && Key(o, policy.width) !in policy.exempt ==>
        if Changed(expected, observed, policy.width, o)
        then Key(o, policy.width) in policy.rewritable else policy.allowed(Key(o, policy.width))
  {
    hide Key, Keys, OfClass, Changed;
    var staleKeys := Keys(stale, policy.width);
    OfClassMembers(policy, staleKeys, missing, Refusal);
    var refused := OfClass(policy, staleKeys, missing, Refusal);
    assert refused == [] || refused[0] in refused;
    forall o | o in missing
      ensures Key(o, policy.width) in staleKeys <==> Changed(expected, observed, policy.width, o)
    {
      ChangedIff(policy, expected, observed, missing, stale, o);
    }
  }

  /** When nothing is refused, no row is orphaned exactly when each row that only
      the contract has is replaced by one of its key. */
  lemma NothingOrphanedIff(policy: Policy, expected: set<Row>, observed: set<Row>, missing: seq<Row>, stale: seq<Row>)
    requires Measured(expected, observed, missing, stale)
    ensures var staleKeys := Keys(stale, policy.width);
      OfClass(policy, staleKeys, missing, Refusal) == [] ==>
        ((forall r :: r in stale ==>
            !Orphan(policy, Keys(OfClass(policy, staleKeys, missing, Rewrite), policy.width), r)) <==>
         forall e :: e in expected - observed && Key(e, policy.width) !in policy.exempt ==>
           exists o :: o in observed - expected && Key(o, policy.width) == Key(e, policy.width))
  {
    hide Key, OfClass;
    var staleKeys := Keys(stale, policy.width);
    OfClassMembers(policy, staleKeys, missing, Refusal);
    OfClassMembers(policy, staleKeys, missing, Rewrite);
    var rewrites := OfClass(policy, staleKeys, missing, Rewrite);
    if OfClass(policy, staleKeys, missing, Refusal) == [] {
      forall e | e in stale && Key(e, policy.width) !in policy.exempt
        ensures Key(e, policy.width) in Keys(rewrites, policy.width) <==>
          exists o :: o in missing && Key(o, policy.width) == Key(e, policy.width)
      {
        if o :| o in missing && Key(o, policy.width) == Key(e, policy.width) {
          assert ClassOf(policy, staleKeys, o) != Refusal;
          assert o in rewrites;
        }
      }
    }
  }
}
