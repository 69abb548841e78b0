/** scripts/check_container_image_pins.py: which `return` statements of a
    function body the gate takes to be reachable, against the runs of the body. */
module ReturnReachability {
  import opened Wrappers
  import opened ReturnSemantics
  import opened ReturnOutcomes

  // ---- The analysis -------------------------------------------------------

  function StaticTruth(e: Expr): Option<bool> {
    match e
    case Constant(truthy) => Some(truthy)
    case Display(elements) => Some(elements != [])
    case Not(operand) =>
      var value := StaticTruth(operand);
      if value.None? then None else Some(!value.value)
    case Dynamic => None
  }

  /** The returns found in a statement list, and whether it is taken never to
      fall off its end. */
  datatype Reach = Reach(found: seq<nat>, terminates: bool)

  function Sequence(stmts: seq<Stmt>): Reach
    decreases stmts, 0
  {
    if stmts == [] then Reach([], false) else
      var first := Statement(stmts[0]);
      if first.terminates then first else
        var rest := Sequence(stmts[1..]);
        Reach(first.found + rest.found, rest.terminates)
  }

  function Statement(s: Stmt): Reach
    decreases s, 1
  {
    match s
    case Return(id) => Reach([id], true)
    case Break => Reach([], true)
    case Continue => Reach([], true)
    case Raise => Reach([], true)
    case If(test, body, orelse) =>
      var truth := StaticTruth(test);
      if truth.Some? then
        if truth.value then Sequence(body) else Sequence(orelse)
      else
        var b, e := Sequence(body), Sequence(orelse);
        Reach(b.found + e.found, orelse != [] && b.terminates && e.terminates)
    case With(body, _) => Sequence(body)
    case Loop(body, orelse) => Reach(Sequence(body).found + Sequence(orelse).found, false)
    case Try(body, handlers, orelse, finalbody) =>
      Reach(Sequence(body).found + Sequence(orelse).found + Sequence(finalbody).found + BlockReturns(handlers),
            Sequence(finalbody).terminates)
    case Match(cases) => Reach(BlockReturns(cases), false)
    case Simple => Reach([], false)
  }

  function BlockReturns(blocks: seq<Block>): seq<nat>
    decreases blocks, 0
  {
    if blocks == [] then [] else Sequence(blocks[0].stmts).found + BlockReturns(blocks[1..])
  }

  // ---- Soundness ----------------------------------------------------------

  /** A display made only of starred parts has no fixed truth value. */
  predicate FixedTruth(e: Expr) {
    match e
    case Display(elements) => elements == [] || Plain in elements
    case Not(operand) => FixedTruth(operand)
    case _ => true
  }

  /** No test of unfixed truth, and no exception-swallowing `with` around a body
      that can raise and that the analysis takes never to fall through. */
  predicate Faithful(stmts: seq<Stmt>)
    decreases stmts, 0
  {
    stmts != [] ==> FaithfulStmt(stmts[0]) && Faithful(stmts[1..])
  }

  predicate FaithfulStmt(s: Stmt)
    decreases s, 1
  {
    match s
    case If(test, body, orelse) => FixedTruth(test) && Faithful(body) && Faithful(orelse)
    case With(body, swallows) => Faithful(body) && !(swallows && Sequence(body).terminates && MayRaise(body))
    case Loop(body, orelse) => Faithful(body) && Faithful(orelse)
    case Try(body, handlers, orelse, finalbody) =>
      Faithful(body) && Faithful(orelse) && Faithful(finalbody) && FaithfulBlocks(handlers)
    case Match(cases) => FaithfulBlocks(cases)
    case _ => true
  }

  predicate FaithfulBlocks(blocks: seq<Block>)
    decreases blocks, 0
  {
    blocks != [] ==> Faithful(blocks[0].stmts) && FaithfulBlocks(blocks[1..])
  }

  /** Every executed return was found, and a list taken to terminate does not fall through. */
  ghost predicate Covers(r: Reach, trace: seq<nat>, o: Outcome) {
    (forall id :: id in trace ==> id in r.found) && (r.terminates ==> o != Normal)
  }

  lemma {:induction false} StaticTruthSound(e: Expr, b: bool)
    requires FixedTruth(e) && CanBe(e, b) && StaticTruth(e).Some?
    ensures StaticTruth(e) == Some(b)
  {
    if e.Not? { StaticTruthSound(e.operand, !b); }
  }

  lemma {:induction false} BlockCovered(blocks: seq<Block>, i: nat)
    requires i < |blocks|
    ensures forall id :: id in Sequence(blocks[i].stmts).found ==> id in BlockReturns(blocks)
    ensures FaithfulBlocks(blocks) ==> Faithful(blocks[i].stmts)
    decreases i
  {
    if i > 0 {
      BlockCovered(blocks[1..], i - 1);
      assert blocks[i] == blocks[1..][i - 1];
    }
  }

  /** The returns the analysis lists are all that any run of the body can
      execute, and a body it takes to terminate never falls off its end. */
  lemma {:induction false} ReachableReturnsSound(stmts: seq<Stmt>, trace: seq<nat>, o: Outcome)
    requires Faithful(stmts) && Runs(stmts, trace, o)
    ensures Covers(Sequence(stmts), trace, o)
    decreases stmts, 0
  {
    if stmts != [] {
      var first, middle :| Steps(stmts[0], first, middle) && After(first, middle, stmts[1..], trace, o);
      StatementSound(stmts[0], first, middle);
      if middle == Normal {
        var rest :| trace == first + rest && Runs(stmts[1..], rest, o);
        ReachableReturnsSound(stmts[1..], rest, o);
      }
    }
  }

  lemma {:induction false} StatementSound(s: Stmt, trace: seq<nat>, o: Outcome)
    requires FaithfulStmt(s) && Steps(s, trace, o)
    ensures Covers(Statement(s), trace, o)
    decreases s, 2
  {
    match s
    case If(test, body, orelse) =>
      if CanBe(test, true) && Runs(body, trace, o) {
        if StaticTruth(test).Some? { StaticTruthSound(test, true); }
        ReachableReturnsSound(body, trace, o);
      } else if CanBe(test, false) && Runs(orelse, trace, o) {
        if StaticTruth(test).Some? { StaticTruthSound(test, false); }
        ReachableReturnsSound(orelse, trace, o);
      }
    case With(body, swallows) =>
      if !(trace == [] && o == Raised) {
        var inner := WithBodyRun(body, swallows, trace, o);
        ReachableReturnsSound(body, trace, inner);
        RunEnds(body, trace, inner);
      }
    case Loop(_, _) =>
      var n :| Loops(s, n, trace, o);
      LoopSound(s, n, trace, o);
    case Try(_, _, _, finalbody) =>
      var guarded, inner, last, final :|
        && Guards(s, guarded, inner) && Runs(finalbody, last, final)
        && trace == guarded + last && o == (if final == Normal then inner else final);
      GuardSound(s, guarded, inner);
      ReachableReturnsSound(finalbody, last, final);
    case Match(cases) =>
      if trace != [] {
        var i :| 0 <= i < |cases| && Runs(cases[i].stmts, trace, o);
        BlockCovered(cases, i);
        ReachableReturnsSound(cases[i].stmts, trace, o);
      }
    case _ =>
  }

  lemma {:induction false} LoopSound(s: Stmt, n: nat, trace: seq<nat>, o: Outcome)
    requires s.Loop? && FaithfulStmt(s) && Loops(s, n, trace, o)
    ensures forall id :: id in trace ==> id in Statement(s).found
    decreases s, 1, n
  {
    if Runs(s.orelse, trace, o) {
      ReachableReturnsSound(s.orelse, trace, o);
    } else if trace != [] {
      var first, middle :| Runs(s.body, first, middle)
        && match middle
           case Normal => exists rest :: trace == first + rest && Loops(s, n - 1, rest, o)
           case Continued => exists rest :: trace == first + rest && Loops(s, n - 1, rest, o)
           case Broke => trace == first && o == Normal
           case _ => trace == first && o == middle;
      ReachableReturnsSound(s.body, first, middle);
      if middle == Normal || middle == Continued {
        var rest :| trace == first + rest && Loops(s, n - 1, rest, o);
        LoopSound(s, n - 1, rest, o);
      }
    }
  }

  lemma {:induction false} GuardSound(s: Stmt, trace: seq<nat>, o: Outcome)
    requires s.Try? && FaithfulStmt(s) && Guards(s, trace, o)
    ensures forall id :: id in trace ==> id in Statement(s).found
    decreases s, 1
  {
    var first, middle :| Runs(s.body, first, middle)
      && match middle
         case Normal => exists rest :: trace == first + rest && Runs(s.orelse, rest, o)
         case Raised =>
           || (trace == first && o == Raised)
           || (exists i, rest :: 0 <= i < |s.handlers| && trace == first + rest && Runs(s.handlers[i].stmts, rest, o))
         case _ => trace == first && o == middle;
    ReachableReturnsSound(s.body, first, middle);
    if middle == Normal {
      var rest :| trace == first + rest && Runs(s.orelse, rest, o);
      ReachableReturnsSound(s.orelse, rest, o);
    } else if middle == Raised && trace != first {
      var i, rest :| 0 <= i < |s.handlers| && trace == first + rest && Runs(s.handlers[i].stmts, rest, o);
      BlockCovered(s.handlers, i);
      ReachableReturnsSound(s.handlers[i].stmts, rest, o);
    }
  }

  // ---- Where the premises are needed --------------------------------------

  /** The analysis is right about s whatever follows it. */
  ghost predicate SoundBefore(s: Stmt) {
    forall rest, trace, o :: Faithful(rest) && Runs([s] + rest, trace, o) ==> Covers(Sequence([s] + rest), trace, o)
  }

  lemma SoundBeforeFromStep(s: Stmt)
    requires forall trace, o :: Steps(s, trace, o) ==> Covers(Statement(s), trace, o)
    ensures SoundBefore(s)
  {
    forall rest, trace, o | Faithful(rest) && Runs([s] + rest, trace, o)
      ensures Covers(Sequence([s] + rest), trace, o)
    {
      var stmts := [s] + rest;
      assert stmts[1..] == rest;
      assert Runs(stmts, trace, o);
      var first, middle :| Steps(stmts[0], first, middle) && After(first, middle, stmts[1..], trace, o);
      if middle == Normal {
        var later :| trace == first + later && Runs(stmts[1..], later, o);
        ReachableReturnsSound(rest, later, o);
      }
    }
  }

  /** An exception-swallowing `with` is judged right before every continuation
      exactly when its body is not both taken never to fall through and able to
      raise; otherwise what follows is dropped. */
  lemma SwallowingWithExact(body: seq<Stmt>)
    requires Faithful(body)
    ensures SoundBefore(With(body, true)) <==> !(Sequence(body).terminates && MayRaise(body))
  {
    var s := With(body, true);
    if Sequence(body).terminates && MayRaise(body) {
      var trace := OutcomeRuns(body, Raised);
      var id := Unlisted(Sequence(body).found);
      RunsReturn(id);
      assert Steps(s, trace, Normal);
      RunsTwo(s, [Return(id)], trace, [id], Returned(id));
      assert Faithful([Return(id)]);
      assert Sequence([s] + [Return(id)]).found == Sequence(body).found;
      assert id in trace + [id];
    } else {
      forall trace, o | Steps(s, trace, o) ensures Covers(Statement(s), trace, o) {
        if !(trace == [] && o == Raised) {
          var inner := WithBodyRun(body, true, trace, o);
          ReachableReturnsSound(body, trace, inner);
          RunEnds(body, trace, inner);
        }
      }
      SoundBeforeFromStep(s);
    }
  }

  /** `with suppressing(): return a` and then `return b`: the second return runs and is not listed. */
  lemma SwallowedReturnMissed()
    ensures var stmts := [With([Return(0)], true), Return(1)];
      Runs(stmts, [1], Returned(1)) && Sequence(stmts) == Reach([0], true)
  {
    var s := With([Return(0)], true);
    SwallowedRaise();
    RunsReturn(1);
    hide Runs;
    RunsTwo(s, [Return(1)], [], [1], Returned(1));
    assert [s] + [Return(1)] == [s, Return(1)] && [] + [1] == [1];
  }

  lemma SwallowedRaise()
    ensures Steps(With([Return(0)], true), [], Normal)
  {
    RunsOne(Return(0), [], Raised);
    hide Runs;
  }

  /** Most bodies can raise: every first statement but these evaluates something. */
  lemma EvaluatingBodyCanRaise(body: seq<Stmt>)
    requires body != [] && !body[0].Break? && !body[0].Continue? && !body[0].Try?
    ensures CanRaise(body)
  {
    if body[0].Loop? { assert Loops(body[0], 0, [], Raised); }
    assert Steps(body[0], [], Raised);
    assert Runs(body, [], Raised);
  }

  function Unlisted(ids: seq<nat>): (id: nat)
    ensures id !in ids
    ensures forall k :: k in ids ==> k < id
  {
    if ids == [] then 0 else
      var rest := Unlisted(ids[1..]);
      assert ids == [ids[0]] + ids[1..];
      if ids[0] < rest then rest else ids[0] + 1
  }

  /** A conditional is judged right for all branches exactly when its test has a fixed truth value. */
  lemma UnfixedTestExact(test: Expr)
    ensures FixedTruth(test) <==>
      forall body, orelse :: Faithful(body) && Faithful(orelse) ==> SoundBefore(If(test, body, orelse))
  {
    if FixedTruth(test) {
      forall body, orelse | Faithful(body) && Faithful(orelse) ensures SoundBefore(If(test, body, orelse)) {
        var s := If(test, body, orelse);
        forall trace, o | Steps(s, trace, o) ensures Covers(Statement(s), trace, o) { StatementSound(s, trace, o); }
        SoundBeforeFromStep(s);
      }
    } else {
      UnfixedIsBoth(test);
      var taken := [Return(0)];
      var s := if StaticTruth(test).value then If(test, [], taken) else If(test, taken, []);
      RunsReturn(0);
      RunsOne(s, [0], Returned(0));
      assert [s] + [] == [s];
      assert Faithful(taken) && Faithful([]);
      assert Statement(s) == Reach([], false);
      assert 0 in [0];
    }
  }

  lemma {:induction false} UnfixedIsBoth(test: Expr)
    requires !FixedTruth(test)
    ensures StaticTruth(test).Some? && CanBe(test, true) && CanBe(test, false)
  {
    if test.Not? { UnfixedIsBoth(test.operand); }
  }

  // ---- Exactness, body by body --------------------------------------------

  /** The analysis is right about the whole body: whatever runs is listed, and
      what is taken to terminate never falls off its end. */
  ghost predicate Sound(stmts: seq<Stmt>) {
    forall trace, o :: Runs(stmts, trace, o) ==> Covers(Sequence(stmts), trace, o)
  }

  /** Every listed return ends some run. */
  ghost predicate Tight(stmts: seq<Stmt>) {
    forall id :: id in Sequence(stmts).found ==> CanEnd(stmts, Returned(id))
  }

  /** For any body at all, whether the analysis is right about it is decided by
      the returns it can execute and the outcomes it can have. */
  lemma SoundIff(stmts: seq<Stmt>)
    ensures Sound(stmts) <==>
      && (forall id :: id in Executed(stmts) ==> id in Sequence(stmts).found)
      && (Sequence(stmts).terminates ==> Normal !in Outcomes(stmts))
  {
    hide Runs, Sequence, Executed, Outcomes;
    if Sound(stmts) {
      forall id | id in Executed(stmts) ensures id in Sequence(stmts).found {
        var trace, o := ExecutedRuns(stmts, id);
        assert Covers(Sequence(stmts), trace, o);
      }
      if Normal in Outcomes(stmts) {
        var trace := OutcomeRuns(stmts, Normal);
        assert Covers(Sequence(stmts), trace, Normal);
      }
    } else {
      var trace, o :| Runs(stmts, trace, o) && !Covers(Sequence(stmts), trace, o);
      RunExecutes(stmts, trace, o);
      RunEnds(stmts, trace, o);
    }
  }

  /** Likewise whether it lists too much, as it does for a return that a `finally` overrides. */
  lemma TightIff(stmts: seq<Stmt>)
    ensures Tight(stmts) <==> forall id :: id in Sequence(stmts).found ==> Returned(id) in Outcomes(stmts)
  {
    hide Runs, Sequence, Outcomes;
    forall id | id in Sequence(stmts).found
      ensures CanEnd(stmts, Returned(id)) <==> Returned(id) in Outcomes(stmts)
    {
      OutcomesExact(stmts, Returned(id));
    }
  }

  /** `try: return a` with `finally: return b`: the first return is listed and never the result. */
  lemma OverriddenReturnListed()
    ensures var stmts := [Try([Return(0)], [], [], [Return(1)])];
      Sequence(stmts) == Reach([0, 1], true) && Returned(0) !in Outcomes(stmts) && Returned(1) in Outcomes(stmts)
  {
    var finalbody := [Return(1)];
    assert Outcomes([Return(0)]) == {Returned(0), Raised} && Outcomes(finalbody) == {Returned(1), Raised};
    assert Sequence([Return(0)]) == Reach([0], true) && Sequence(finalbody) == Reach([1], true);
  }

  // ---- Exactness on structured code ---------------------------------------

  /** Code without `try` and without a loop `else`. */
  predicate Structured(stmts: seq<Stmt>)
    decreases stmts, 0
  {
    stmts != [] ==> StructuredStmt(stmts[0]) && Structured(stmts[1..])
  }

  predicate StructuredStmt(s: Stmt)
    decreases s, 1
  {
    match s
    case If(test, body, orelse) => Structured(body) && Structured(orelse)
    case With(body, _) => Structured(body)
    case Loop(body, orelse) => Structured(body) && orelse == []
    case Try(_, _, _, _) => false
    case Match(cases) => StructuredBlocks(cases)
    case _ => true
  }

  predicate StructuredBlocks(blocks: seq<Block>)
    decreases blocks, 0
  {
    blocks != [] ==> Structured(blocks[0].stmts) && StructuredBlocks(blocks[1..])
  }

  /** The converse on structured code: every listed return is the end of some
      run, and a list not taken to terminate can fall off its end. */
  lemma {:induction false} ReachableReturnsExact(stmts: seq<Stmt>)
    requires Structured(stmts)
    ensures forall id :: id in Sequence(stmts).found ==> Runs(stmts, [id], Returned(id))
    ensures !Sequence(stmts).terminates ==> Runs(stmts, [], Normal)
    decreases stmts, 0
  {
    if stmts != [] {
      var first := Statement(stmts[0]);
      StatementExact(stmts[0]);
      forall id | id in first.found ensures Runs(stmts, [id], Returned(id)) {
        assert Steps(stmts[0], [id], Returned(id));
      }
      if !first.terminates {
        ReachableReturnsExact(stmts[1..]);
        assert stmts == [stmts[0]] + stmts[1..];
        forall id | id in Sequence(stmts[1..]).found ensures Runs(stmts, [id], Returned(id)) {
          RunsTwo(stmts[0], stmts[1..], [], [id], Returned(id));
          assert [] + [id] == [id];
        }
        if !Sequence(stmts[1..]).terminates {
          RunsTwo(stmts[0], stmts[1..], [], [], Normal);
        }
      }
    }
  }

  lemma {:induction false} StatementExact(s: Stmt)
    requires StructuredStmt(s)
    ensures forall id :: id in Statement(s).found ==> Steps(s, [id], Returned(id))
    ensures !Statement(s).terminates ==> Steps(s, [], Normal)
    decreases s, 1
  {
    match s
    case If(test, body, orelse) =>
      ReachableReturnsExact(body);
      ReachableReturnsExact(orelse);
      CanBeSome(test);
    case With(body, _) => ReachableReturnsExact(body);
    case Loop(body, _) =>
      ReachableReturnsExact(body);
      forall id | id in Sequence(body).found ensures Steps(s, [id], Returned(id)) {
        assert Loops(s, 1, [id], Returned(id));
      }
      assert Loops(s, 0, [], Normal);
    case Match(cases) =>
      forall id | id in BlockReturns(cases) ensures Steps(s, [id], Returned(id)) {
        var i := BlockExact(cases, id);
      }
    case _ =>
  }

  lemma {:induction false} BlockExact(blocks: seq<Block>, id: nat) returns (i: nat)
    requires StructuredBlocks(blocks) && id in BlockReturns(blocks)
    ensures i < |blocks| && Runs(blocks[i].stmts, [id], Returned(id))
    decreases blocks, 0
  {
    ReachableReturnsExact(blocks[0].stmts);
    if id in Sequence(blocks[0].stmts).found {
      i := 0;
    } else {
      i := BlockExact(blocks[1..], id);
      i := i + 1;
    }
  }

  /** The static truth value of a test is one the test can take, and an unknown one can be either. */
  lemma {:induction false} CanBeSome(test: Expr)
    ensures match StaticTruth(test)
            case Some(b) => CanBe(test, b)
            case None => CanBe(test, true) && CanBe(test, false)
  {
    if test.Not? { CanBeSome(test.operand); }
  }
}
