/** scripts/check_container_image_pins.py: where the list of reachable returns is
    exactly the returns that run, and in which order it holds them. */
module ReturnLists {
  import opened Wrappers
  import opened ReturnSemantics
  import opened ReturnOutcomes
  import opened ReturnReachability

  // ---- Exact lists --------------------------------------------------------

  /** Code of which every part the analysis visits can run: no misread test, no
      swallowed exception behind which code is dropped, a `try` whose else,
      handlers and end can be reached where they matter, and a loop that is left
      by a `break` if its else ends the block. */
  predicate Lively(stmts: seq<Stmt>)
    decreases stmts, 0
  {
    stmts != [] ==> LivelyStmt(stmts[0]) && (!Statement(stmts[0]).terminates ==> Lively(stmts[1..]))
  }

  predicate LivelyStmt(s: Stmt)
    decreases s, 1
  {
    match s
    case If(test, body, orelse) =>
      && FixedTruth(test)
      && (StaticTruth(test) != Some(false) ==> Lively(body)) && (StaticTruth(test) != Some(true) ==> Lively(orelse))
    case With(body, swallows) => Lively(body) && !(swallows && Sequence(body).terminates && MayRaise(body))
    case Loop(body, orelse) =>
      Lively(body) && Lively(orelse) && (Sequence(orelse).terminates ==> Broke in Outcomes(body))
    case Try(body, handlers, orelse, finalbody) =>
      && Lively(body) && Lively(orelse) && Lively(finalbody) && LivelyBlocks(handlers)
      && (Sequence(orelse).found != [] ==> Normal in Outcomes(body))
      && (BlockReturns(handlers) != [] ==> Raised in Outcomes(body))
      && (!Sequence(finalbody).terminates ==> Normal in GuardOutcomes(s))
    case Match(cases) => LivelyBlocks(cases)
    case _ => true
  }

  predicate LivelyBlocks(blocks: seq<Block>)
    decreases blocks, 0
  {
    blocks != [] ==> Lively(blocks[0].stmts) && LivelyBlocks(blocks[1..])
  }

  ghost predicate SameReturns(found: seq<nat>, executed: set<nat>) { forall id :: id in found <==> id in executed }

  lemma StaticTruthFixed(test: Expr)
    requires FixedTruth(test)
    ensures match StaticTruth(test)
      case Some(b) => CanBe(test, b) && !CanBe(test, !b)
      case None => CanBe(test, true) && CanBe(test, false)
  {
    CanBeSome(test);
    if StaticTruth(test).Some? && CanBe(test, !StaticTruth(test).value) { StaticTruthSound(test, !StaticTruth(test).value); }
  }

  /** On such code the list holds exactly the returns that some run executes, and
      a body is taken to terminate exactly when no run falls off its end. */
  lemma {:induction false} ListedExactly(stmts: seq<Stmt>)
    requires Lively(stmts)
    ensures SameReturns(Sequence(stmts).found, Executed(stmts))
    ensures Sequence(stmts).terminates <==> Normal !in Outcomes(stmts)
    decreases stmts, 0
  {
    if stmts != [] {
      StatementListedExactly(stmts[0]);
      if !Statement(stmts[0]).terminates { ListedExactly(stmts[1..]); }
    }
  }

  lemma {:induction false} StatementListedExactly(s: Stmt)
    requires LivelyStmt(s)
    ensures SameReturns(Statement(s).found, StatementExecuted(s))
    ensures Statement(s).terminates <==> Normal !in StatementOutcomes(s)
    decreases s, 1
  {
    match s
    case If(test, body, orelse) =>
      StaticTruthFixed(test);
      if StaticTruth(test) != Some(false) { ListedExactly(body); }
      if StaticTruth(test) != Some(true) { ListedExactly(orelse); }
    case With(body, _) => ListedExactly(body);
    case Loop(body, orelse) =>
      ListedExactly(body);
      ListedExactly(orelse);
    case Try(body, handlers, orelse, finalbody) =>
      ListedExactly(body);
      ListedExactly(orelse);
      ListedExactly(finalbody);
      BlocksListedExactly(handlers);
      TryListed(s);
    case Match(cases) => BlocksListedExactly(cases);
    case _ =>
  }

  lemma {:induction false} BlocksListedExactly(blocks: seq<Block>)
    requires LivelyBlocks(blocks)
    ensures SameReturns(BlockReturns(blocks), BlockExecuted(blocks))
    decreases blocks, 0
  {
    if blocks != [] {
      ListedExactly(blocks[0].stmts);
      BlocksListedExactly(blocks[1..]);
    }
  }

  lemma TryListed(s: Stmt)
    requires s.Try? && LivelyStmt(s)
    requires SameReturns(Sequence(s.body).found, Executed(s.body)) && SameReturns(Sequence(s.orelse).found, Executed(s.orelse))
    requires SameReturns(Sequence(s.finalbody).found, Executed(s.finalbody))
    requires SameReturns(BlockReturns(s.handlers), BlockExecuted(s.handlers))
    requires Sequence(s.finalbody).terminates <==> Normal !in Outcomes(s.finalbody)
    ensures SameReturns(Statement(s).found, StatementExecuted(s))
    ensures Statement(s).terminates <==> Normal !in StatementOutcomes(s)
  {
    hide Sequence, Executed, BlockReturns, BlockExecuted, Outcomes, GuardOutcomes, Lively, LivelyBlocks;
    assert Sequence(s.orelse).found == [] ==> Executed(s.orelse) == {};
    assert BlockReturns(s.handlers) == [] ==> BlockExecuted(s.handlers) == {};
  }

  // ---- The order of the list ----------------------------------------------

  /** All returns of a body in the order of the text, except that the handlers of
      a `try` are visited last. */
  function Returns(stmts: seq<Stmt>): seq<nat>
    decreases stmts, 0
  {
    if stmts == [] then [] else ReturnsOf(stmts[0]) + Returns(stmts[1..])
  }

  function ReturnsOf(s: Stmt): seq<nat>
    decreases s, 1
  {
    match s
    case Return(id) => [id]
    case If(_, body, orelse) => Returns(body) + Returns(orelse)
    case With(body, _) => Returns(body)
    case Loop(body, orelse) => Returns(body) + Returns(orelse)
    case Try(body, handlers, orelse, finalbody) => Returns(body) + Returns(orelse) + Returns(finalbody) + ReturnsIn(handlers)
    case Match(cases) => ReturnsIn(cases)
    case _ => []
  }

  function ReturnsIn(blocks: seq<Block>): seq<nat>
    decreases blocks, 0
  {
    if blocks == [] then [] else Returns(blocks[0].stmts) + ReturnsIn(blocks[1..])
  }

  /** a is b with some entries left out. */
  predicate Within(a: seq<nat>, b: seq<nat>) {
    a == [] || (b != [] && ((a[0] == b[0] && Within(a[1..], b[1..])) || Within(a, b[1..])))
  }

  lemma {:induction false} WithinLater(a: seq<nat>, before: seq<nat>, b: seq<nat>)
    requires Within(a, b)
    ensures Within(a, before + b)
    decreases |before|
  {
    if before == [] {
      assert before + b == b;
    } else {
      WithinLater(a, before[1..], b);
      assert (before + b)[1..] == before[1..] + b;
    }
  }

  lemma {:induction false} WithinConcat(a: seq<nat>, b: seq<nat>, c: seq<nat>, d: seq<nat>)
    requires Within(a, b) && Within(c, d)
    ensures Within(a + c, b + d)
    decreases |b|
  {
    if a == [] {
      assert a + c == c;
      WithinLater(c, b, d);
    } else {
      assert (b + d)[0] == b[0] && (b + d)[1..] == b[1..] + d && (a + c)[0] == a[0];
      if a[0] == b[0] && Within(a[1..], b[1..]) {
        WithinConcat(a[1..], b[1..], c, d);
        assert (a + c)[1..] == a[1..] + c;
      } else {
        WithinConcat(a, b[1..], c, d);
      }
    }
  }

  lemma NothingWithin(b: seq<nat>)
    ensures Within([], b)
  {
  }

  /** The list keeps the order of the visits; no return is listed twice unless it stands twice. */
  lemma {:induction false} ListedInOrder(stmts: seq<Stmt>)
    ensures Within(Sequence(stmts).found, Returns(stmts))
    decreases stmts, 0
  {
    hide Within, ReturnsOf, Statement;
    if stmts == [] {
      NothingWithin([]);
    } else {
      StatementInOrder(stmts[0]);
      if Statement(stmts[0]).terminates {
        NothingWithin(Returns(stmts[1..]));
        WithinConcat(Statement(stmts[0]).found, ReturnsOf(stmts[0]), [], Returns(stmts[1..]));
        assert Statement(stmts[0]).found + [] == Statement(stmts[0]).found;
      } else {
        ListedInOrder(stmts[1..]);
        WithinConcat(Statement(stmts[0]).found, ReturnsOf(stmts[0]), Sequence(stmts[1..]).found, Returns(stmts[1..]));
      }
    }
  }

  lemma {:induction false} StatementInOrder(s: Stmt)
    ensures Within(Statement(s).found, ReturnsOf(s))
    decreases s, 1
  {
    hide Within, Sequence, Returns, BlockReturns, ReturnsIn;
    match s
    case Return(id) => SameWithin(id);
    case If(test, body, orelse) =>
      ListedInOrder(body);
      ListedInOrder(orelse);
      NothingWithin(Returns(orelse));
      NothingWithin(Returns(body));
      WithinConcat(Sequence(body).found, Returns(body), Sequence(orelse).found, Returns(orelse));
      WithinConcat(Sequence(body).found, Returns(body), [], Returns(orelse));
      WithinConcat([], Returns(body), Sequence(orelse).found, Returns(orelse));
      assert Sequence(body).found + [] == Sequence(body).found && [] + Sequence(orelse).found == Sequence(orelse).found;
    case With(body, _) => ListedInOrder(body);
    case Loop(body, orelse) =>
      ListedInOrder(body);
      ListedInOrder(orelse);
      WithinConcat(Sequence(body).found, Returns(body), Sequence(orelse).found, Returns(orelse));
    case Try(body, handlers, orelse, finalbody) =>
      ListedInOrder(body);
      ListedInOrder(orelse);
      ListedInOrder(finalbody);
      BlocksInOrder(handlers);
      var b, e, f := Sequence(body).found, Sequence(orelse).found, Sequence(finalbody).found;
      WithinConcat(b, Returns(body), e, Returns(orelse));
      WithinConcat(b + e, Returns(body) + Returns(orelse), f, Returns(finalbody));
      WithinConcat(b + e + f, Returns(body) + Returns(orelse) + Returns(finalbody), BlockReturns(handlers), ReturnsIn(handlers));
    case Match(cases) => BlocksInOrder(cases);
    case _ => NothingWithin([]);
  }

  lemma SameWithin(id: nat)
    ensures Within([id], [id])
  {
    assert [id][1..] == [];
  }

  lemma {:induction false} BlocksInOrder(blocks: seq<Block>)
    ensures Within(BlockReturns(blocks), ReturnsIn(blocks))
    decreases blocks, 0
  {
    hide Within, Sequence, Returns;
    if blocks == [] {
      NothingWithin([]);
    } else {
      ListedInOrder(blocks[0].stmts);
      BlocksInOrder(blocks[1..]);
      WithinConcat(Sequence(blocks[0].stmts).found, Returns(blocks[0].stmts), BlockReturns(blocks[1..]), ReturnsIn(blocks[1..]));
    }
  }
}
