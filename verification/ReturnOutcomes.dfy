/** How a statement list can end and which returns it can execute, computed
    from its syntax. */
module ReturnOutcomes {
  import opened ReturnSemantics

  /** The ways a statement list can end. */
  function Outcomes(stmts: seq<Stmt>): set<Outcome>
    decreases stmts, 0
  {
    if stmts == [] then {Normal} else
      var first := StatementOutcomes(stmts[0]);
      if Normal in first then first - {Normal} + Outcomes(stmts[1..]) else first
  }

  function StatementOutcomes(s: Stmt): set<Outcome>
    decreases s, 2
  {
    match s
    case Return(id) => {Returned(id), Raised}
    case Break => {Broke}
    case Continue => {Continued}
    case Raise => {Raised}
    case If(test, body, orelse) =>
      {Raised} + (if CanBe(test, true) then Outcomes(body) else {}) + (if CanBe(test, false) then Outcomes(orelse) else {})
    case With(body, swallows) =>
      {Raised} + Outcomes(body) + (if swallows && Raised in Outcomes(body) then {Normal} else {})
    case Loop(body, orelse) =>
      {Raised} + Outcomes(orelse) + Exits(Outcomes(body)) + (if Broke in Outcomes(body) then {Normal} else {})
    case Try(_, _, _, finalbody) =>
      Outcomes(finalbody) - {Normal} + (if Normal in Outcomes(finalbody) then GuardOutcomes(s) else {})
    case Match(cases) => {Normal, Raised} + BlockOutcomes(cases)
    case Simple => {Normal, Raised}
  }

  /** What leaves a loop from inside its body without a `break`. */
  function Exits(outcomes: set<Outcome>): set<Outcome> {
    set o | o in outcomes && (o == Raised || o.Returned?)
  }

  /** A `try` up to, and without, its `finally`. */
  function GuardOutcomes(s: Stmt): set<Outcome>
    requires s.Try?
    decreases s, 1
  {
    var body := Outcomes(s.body);
    body - {Normal, Raised}
    + (if Normal in body then Outcomes(s.orelse) else {})
    + (if Raised in body then {Raised} + BlockOutcomes(s.handlers) else {})
  }

  function BlockOutcomes(blocks: seq<Block>): set<Outcome>
    decreases blocks, 0
  {
    if blocks == [] then {} else Outcomes(blocks[0].stmts) + BlockOutcomes(blocks[1..])
  }

  predicate MayRaise(stmts: seq<Stmt>) { Raised in Outcomes(stmts) }

  // ---- Every run ends in one of these ways --------------------------------

  lemma {:induction false} BlockEnds(blocks: seq<Block>, i: nat)
    requires i < |blocks|
    ensures Outcomes(blocks[i].stmts) <= BlockOutcomes(blocks)
    decreases i
  {
    if i > 0 {
      BlockEnds(blocks[1..], i - 1);
      assert blocks[i] == blocks[1..][i - 1];
    }
  }

  lemma {:induction false} RunEnds(stmts: seq<Stmt>, trace: seq<nat>, o: Outcome)
    requires Runs(stmts, trace, o)
    ensures o in Outcomes(stmts)
    decreases stmts, 0
  {
    if stmts != [] {
      var first, middle :| Steps(stmts[0], first, middle) && After(first, middle, stmts[1..], trace, o);
      StepEnds(stmts[0], first, middle);
      if middle == Normal {
        var rest :| trace == first + rest && Runs(stmts[1..], rest, o);
        RunEnds(stmts[1..], rest, o);
      }
    }
  }

  lemma {:induction false} StepEnds(s: Stmt, trace: seq<nat>, o: Outcome)
    requires Steps(s, trace, o)
    ensures o in StatementOutcomes(s)
    decreases s, 2
  {
    match s
    case If(test, body, orelse) =>
      if !(trace == [] && o == Raised) {
        if CanBe(test, true) && Runs(body, trace, o) { RunEnds(body, trace, o); } else { RunEnds(orelse, trace, o); }
      }
    case With(body, swallows) =>
      if !(trace == [] && o == Raised) {
        var inner := WithBodyRun(body, swallows, trace, o);
        RunEnds(body, trace, inner);
      }
    case Loop(_, _) =>
      var n :| Loops(s, n, trace, o);
      LoopEnds(s, n, trace, o);
    case Try(_, _, _, finalbody) =>
      var guarded, inner, last, final :|
        && Guards(s, guarded, inner) && Runs(finalbody, last, final)
        && trace == guarded + last && o == (if final == Normal then inner else final);
      GuardEnds(s, guarded, inner);
      RunEnds(finalbody, last, final);
    case Match(cases) =>
      if i :| 0 <= i < |cases| && Runs(cases[i].stmts, trace, o) {
        BlockEnds(cases, i);
        RunEnds(cases[i].stmts, trace, o);
      }
    case _ =>
  }

  lemma {:induction false} LoopEnds(s: Stmt, n: nat, trace: seq<nat>, o: Outcome)
    requires s.Loop? && Loops(s, n, trace, o)
    ensures o in StatementOutcomes(s)
    decreases s, 1, n
  {
    if Runs(s.orelse, trace, o) {
      RunEnds(s.orelse, trace, o);
    } else if !(trace == [] && o == Raised) {
      var first, middle :|
        && Runs(s.body, first, middle)
        && match middle
           case Normal => exists rest :: trace == first + rest && Loops(s, n - 1, rest, o)
           case Continued => exists rest :: trace == first + rest && Loops(s, n - 1, rest, o)
           case Broke => trace == first && o == Normal
           case _ => trace == first && o == middle;
      RunEnds(s.body, first, middle);
      if middle == Normal || middle == Continued {
        var rest :| trace == first + rest && Loops(s, n - 1, rest, o);
        LoopEnds(s, n - 1, rest, o);
      }
    }
  }

  lemma {:induction false} GuardEnds(s: Stmt, trace: seq<nat>, o: Outcome)
    requires s.Try? && Guards(s, trace, o)
    ensures o in GuardOutcomes(s)
    decreases s, 1
  {
    var first, middle :|
      && Runs(s.body, first, middle)
      && match middle
         case Normal => exists rest :: trace == first + rest && Runs(s.orelse, rest, o)
         case Raised =>
           || (trace == first && o == Raised)
           || (exists i, rest :: 0 <= i < |s.handlers| && trace == first + rest && Runs(s.handlers[i].stmts, rest, o))
         case _ => trace == first && o == middle;
    RunEnds(s.body, first, middle);
    if middle == Normal {
      var rest :| trace == first + rest && Runs(s.orelse, rest, o);
      RunEnds(s.orelse, rest, o);
    } else if middle == Raised && !(trace == first && o == Raised) {
      var i, rest :| 0 <= i < |s.handlers| && trace == first + rest && Runs(s.handlers[i].stmts, rest, o);
      BlockEnds(s.handlers, i);
      RunEnds(s.handlers[i].stmts, rest, o);
    }
  }

  // ---- Some run ends in each of these ways --------------------------------

  lemma {:induction false} SomeOutcome(stmts: seq<Stmt>) returns (e: Outcome)
    ensures e in Outcomes(stmts)
    decreases stmts, 0
  {
    if stmts == [] {
      e := Normal;
    } else {
      e := SomeStatementOutcome(stmts[0]);
      if Normal in StatementOutcomes(stmts[0]) { e := SomeOutcome(stmts[1..]); }
    }
  }

  lemma {:induction false} SomeStatementOutcome(s: Stmt) returns (e: Outcome)
    ensures e in StatementOutcomes(s)
    decreases s, 2
  {
    match s
    case Break => e := Broke;
    case Continue => e := Continued;
    case Try(_, _, _, finalbody) =>
      e := SomeOutcome(finalbody);
      if e == Normal { e := SomeGuardOutcome(s); }
    case _ => e := Raised;
  }

  lemma {:induction false} SomeGuardOutcome(s: Stmt) returns (e: Outcome)
    requires s.Try?
    ensures e in GuardOutcomes(s)
    decreases s, 1
  {
    e := SomeOutcome(s.body);
    if e == Normal { e := SomeOutcome(s.orelse); }
  }

  lemma {:induction false} BlockFound(blocks: seq<Block>, e: Outcome) returns (i: nat)
    requires e in BlockOutcomes(blocks)
    ensures i < |blocks| && e in Outcomes(blocks[i].stmts)
    decreases blocks, 0
  {
    if e in Outcomes(blocks[0].stmts) {
      i := 0;
    } else {
      i := BlockFound(blocks[1..], e);
      i := i + 1;
    }
  }

  lemma {:induction false} OutcomeRuns(stmts: seq<Stmt>, o: Outcome) returns (trace: seq<nat>)
    requires o in Outcomes(stmts)
    ensures Runs(stmts, trace, o)
    decreases stmts, 0
  {
    if stmts == [] {
      trace := [];
    } else if o != Normal && o in StatementOutcomes(stmts[0]) {
      trace := OutcomeSteps(stmts[0], o);
      assert After(trace, o, stmts[1..], trace, o);
    } else {
      var first := OutcomeSteps(stmts[0], Normal);
      var rest := OutcomeRuns(stmts[1..], o);
      trace := first + rest;
      assert After(first, Normal, stmts[1..], trace, o);
    }
  }

  lemma {:induction false} OutcomeSteps(s: Stmt, o: Outcome) returns (trace: seq<nat>)
    requires o in StatementOutcomes(s)
    ensures Steps(s, trace, o)
    decreases s, 2
  {
    trace := [];
    if o == Raised && !s.Try? && !s.Break? && !s.Continue? {
      if s.Loop? { assert Loops(s, 0, [], Raised); }
      return;
    }
    match s
    case Return(id) => trace := [id];
    case If(test, body, orelse) =>
      if CanBe(test, true) && o in Outcomes(body) {
        trace := OutcomeRuns(body, o);
      } else {
        trace := OutcomeRuns(orelse, o);
      }
    case With(body, swallows) =>
      trace := OutcomeRuns(body, if o in Outcomes(body) then o else Raised);
    case Loop(body, orelse) => trace := OutcomeLoops(s, o);
    case Try(_, _, _, finalbody) =>
      if o != Normal && o in Outcomes(finalbody) {
        var some := SomeGuardOutcome(s);
        var guarded := OutcomeGuards(s, some);
        var last := OutcomeRuns(finalbody, o);
        trace := guarded + last;
      } else {
        var guarded := OutcomeGuards(s, o);
        var last := OutcomeRuns(finalbody, Normal);
        trace := guarded + last;
      }
    case Match(cases) =>
      if o != Normal {
        var i := BlockFound(cases, o);
        trace := OutcomeRuns(cases[i].stmts, o);
      }
    case _ =>
  }

  lemma {:induction false} OutcomeLoops(s: Stmt, o: Outcome) returns (trace: seq<nat>)
    requires s.Loop? && o in StatementOutcomes(s) && o != Raised
    ensures Steps(s, trace, o)
    decreases s, 1
  {
    if o in Outcomes(s.orelse) {
      trace := OutcomeRuns(s.orelse, o);
      assert Loops(s, 0, trace, o);
    } else {
      trace := OutcomeRuns(s.body, if o == Normal then Broke else o);
      assert Loops(s, 1, trace, o);
    }
  }

  lemma {:induction false} OutcomeGuards(s: Stmt, o: Outcome) returns (trace: seq<nat>)
    requires s.Try? && o in GuardOutcomes(s)
    ensures Guards(s, trace, o)
    decreases s, 1
  {
    var body := Outcomes(s.body);
    if o in body && o != Normal {
      trace := OutcomeRuns(s.body, o);
    } else if Normal in body && o in Outcomes(s.orelse) {
      var first := OutcomeRuns(s.body, Normal);
      var rest := OutcomeRuns(s.orelse, o);
      trace := first + rest;
    } else {
      var first := OutcomeRuns(s.body, Raised);
      var i := BlockFound(s.handlers, o);
      var rest := OutcomeRuns(s.handlers[i].stmts, o);
      trace := first + rest;
    }
  }

  ghost predicate CanEnd(stmts: seq<Stmt>, o: Outcome) {
    exists trace :: Runs(stmts, trace, o)
  }

  /** The computed outcomes are exactly those of the runs. */
  lemma OutcomesExact(stmts: seq<Stmt>, o: Outcome)
    ensures o in Outcomes(stmts) <==> CanEnd(stmts, o)
  {
    hide Runs, Outcomes;
    if o in Outcomes(stmts) {
      var trace := OutcomeRuns(stmts, o);
    }
    if trace :| Runs(stmts, trace, o) { RunEnds(stmts, trace, o); }
  }

  // ---- The returns some run executes --------------------------------------

  /** The ids of the returns a statement list can execute, in mid-run or at the end. */
  function Executed(stmts: seq<Stmt>): set<nat>
    decreases stmts, 0
  {
    if stmts == [] then {} else
      StatementExecuted(stmts[0]) + if Normal in StatementOutcomes(stmts[0]) then Executed(stmts[1..]) else {}
  }

  function StatementExecuted(s: Stmt): set<nat>
    decreases s, 1
  {
    match s
    case Return(id) => {id}
    case If(test, body, orelse) =>
      (if CanBe(test, true) then Executed(body) else {}) + (if CanBe(test, false) then Executed(orelse) else {})
    case With(body, _) => Executed(body)
    case Loop(body, orelse) => Executed(body) + Executed(orelse)
    case Try(body, handlers, orelse, finalbody) =>
      Executed(body) + Executed(finalbody)
      + (if Normal in Outcomes(body) then Executed(orelse) else {})
      + (if Raised in Outcomes(body) then BlockExecuted(handlers) else {})
    case Match(cases) => BlockExecuted(cases)
    case _ => {}
  }

  function BlockExecuted(blocks: seq<Block>): set<nat>
    decreases blocks, 0
  {
    if blocks == [] then {} else Executed(blocks[0].stmts) + BlockExecuted(blocks[1..])
  }

  lemma {:induction false} BlockExecutes(blocks: seq<Block>, i: nat)
    requires i < |blocks|
    ensures Executed(blocks[i].stmts) <= BlockExecuted(blocks)
    decreases i
  {
    if i > 0 {
      BlockExecutes(blocks[1..], i - 1);
      assert blocks[i] == blocks[1..][i - 1];
    }
  }

  lemma {:induction false} RunExecutes(stmts: seq<Stmt>, trace: seq<nat>, o: Outcome)
    requires Runs(stmts, trace, o)
    ensures forall id :: id in trace ==> id in Executed(stmts)
    decreases stmts, 0
  {
    if stmts != [] {
      var first, middle :| Steps(stmts[0], first, middle) && After(first, middle, stmts[1..], trace, o);
      StepExecutes(stmts[0], first, middle);
      if middle == Normal {
        var rest :| trace == first + rest && Runs(stmts[1..], rest, o);
        StepEnds(stmts[0], first, middle);
        RunExecutes(stmts[1..], rest, o);
      }
    }
  }

  lemma {:induction false} StepExecutes(s: Stmt, trace: seq<nat>, o: Outcome)
    requires Steps(s, trace, o)
    ensures forall id :: id in trace ==> id in StatementExecuted(s)
    decreases s, 2
  {
    if trace != [] {
      match s
      case If(test, body, orelse) =>
        if CanBe(test, true) && Runs(body, trace, o) { RunExecutes(body, trace, o); } else { RunExecutes(orelse, trace, o); }
      case With(body, swallows) =>
        var inner := WithBodyRun(body, swallows, trace, o);
        RunExecutes(body, trace, inner);
      case Loop(_, _) =>
        var n :| Loops(s, n, trace, o);
        LoopExecutes(s, n, trace, o);
      case Try(_, _, _, finalbody) =>
        var guarded, inner, last, final :|
          && Guards(s, guarded, inner) && Runs(finalbody, last, final)
          && trace == guarded + last && o == (if final == Normal then inner else final);
        GuardExecutes(s, guarded, inner);
        RunExecutes(finalbody, last, final);
      case Match(cases) =>
        var i :| 0 <= i < |cases| && Runs(cases[i].stmts, trace, o);
        BlockExecutes(cases, i);
        RunExecutes(cases[i].stmts, trace, o);
      case _ =>
    }
  }

  lemma {:induction false} LoopExecutes(s: Stmt, n: nat, trace: seq<nat>, o: Outcome)
    requires s.Loop? && Loops(s, n, trace, o)
    ensures forall id :: id in trace ==> id in StatementExecuted(s)
    decreases s, 1, n
  {
    if Runs(s.orelse, trace, o) {
      RunExecutes(s.orelse, trace, o);
    } else if !(trace == [] && o == Raised) {
      var first, middle :|
        && Runs(s.body, first, middle)
        && match middle
           case Normal => exists rest :: trace == first + rest && Loops(s, n - 1, rest, o)
           case Continued => exists rest :: trace == first + rest && Loops(s, n - 1, rest, o)
           case Broke => trace == first && o == Normal
           case _ => trace == first && o == middle;
      RunExecutes(s.body, first, middle);
      if middle == Normal || middle == Continued {
        var rest :| trace == first + rest && Loops(s, n - 1, rest, o);
        LoopExecutes(s, n - 1, rest, o);
      }
    }
  }

  lemma {:induction false} GuardExecutes(s: Stmt, trace: seq<nat>, o: Outcome)
    requires s.Try? && Guards(s, trace, o)
    ensures forall id :: id in trace ==> id in StatementExecuted(s)
    decreases s, 1
  {
    var first, middle :|
      && Runs(s.body, first, middle)
      && match middle
         case Normal => exists rest :: trace == first + rest && Runs(s.orelse, rest, o)
         case Raised =>
           || (trace == first && o == Raised)
           || (exists i, rest :: 0 <= i < |s.handlers| && trace == first + rest && Runs(s.handlers[i].stmts, rest, o))
         case _ => trace == first && o == middle;
    RunExecutes(s.body, first, middle);
    RunEnds(s.body, first, middle);
    if middle == Normal {
      var rest :| trace == first + rest && Runs(s.orelse, rest, o);
      RunExecutes(s.orelse, rest, o);
    } else if middle == Raised && !(trace == first && o == Raised) {
      var i, rest :| 0 <= i < |s.handlers| && trace == first + rest && Runs(s.handlers[i].stmts, rest, o);
      BlockExecutes(s.handlers, i);
      RunExecutes(s.handlers[i].stmts, rest, o);
    }
  }

  lemma {:induction false} ExecutedRuns(stmts: seq<Stmt>, id: nat) returns (trace: seq<nat>, o: Outcome)
    requires id in Executed(stmts)
    ensures Runs(stmts, trace, o) && id in trace
    decreases stmts, 0
  {
    var first, middle;
    if id in StatementExecuted(stmts[0]) {
      first, middle := ExecutedSteps(stmts[0], id);
      if middle != Normal {
        assert After(first, middle, stmts[1..], first, middle);
        return first, middle;
      }
      o := SomeOutcome(stmts[1..]);
      var rest := OutcomeRuns(stmts[1..], o);
      trace := first + rest;
    } else {
      first := OutcomeSteps(stmts[0], Normal);
      var rest;
      rest, o := ExecutedRuns(stmts[1..], id);
      trace := first + rest;
    }
    assert After(first, Normal, stmts[1..], trace, o);
  }

  lemma {:induction false} ExecutedSteps(s: Stmt, id: nat) returns (trace: seq<nat>, o: Outcome)
    requires id in StatementExecuted(s)
    ensures Steps(s, trace, o) && id in trace
    decreases s, 1
  {
    match s
    case Return(_) => trace, o := [id], Returned(id);
    case If(test, body, orelse) =>
      if CanBe(test, true) && id in Executed(body) {
        trace, o := ExecutedRuns(body, id);
      } else {
        trace, o := ExecutedRuns(orelse, id);
      }
    case With(body, _) => trace, o := ExecutedRuns(body, id);
    case Loop(body, orelse) => trace, o := ExecutedLoops(s, id);
    case Try(_, _, _, finalbody) =>
      var guarded, inner, last, final;
      if id in Executed(finalbody) {
        inner := SomeGuardOutcome(s);
        guarded := OutcomeGuards(s, inner);
        last, final := ExecutedRuns(finalbody, id);
      } else {
        guarded, inner := ExecutedGuards(s, id);
        final := SomeOutcome(finalbody);
        last := OutcomeRuns(finalbody, final);
      }
      trace, o := guarded + last, if final == Normal then inner else final;
    case Match(cases) =>
      var i := BlockExecuting(cases, id);
      trace, o := ExecutedRuns(cases[i].stmts, id);
  }

  lemma {:induction false} ExecutedLoops(s: Stmt, id: nat) returns (trace: seq<nat>, o: Outcome)
    requires s.Loop? && id in StatementExecuted(s)
    ensures Steps(s, trace, o) && id in trace
    decreases s, 0
  {
    if id in Executed(s.orelse) {
      trace, o := ExecutedRuns(s.orelse, id);
      assert Loops(s, 0, trace, o);
    } else {
      var middle;
      trace, middle := ExecutedRuns(s.body, id);
      match middle {
        case Normal => o := Raised; assert Loops(s, 0, [], o) && trace == trace + [];
        case Continued => o := Raised; assert Loops(s, 0, [], o) && trace == trace + [];
        case Broke => o := Normal;
        case _ => o := middle;
      }
      assert Loops(s, 1, trace, o);
    }
  }

  lemma {:induction false} ExecutedGuards(s: Stmt, id: nat) returns (trace: seq<nat>, o: Outcome)
    requires s.Try? && id in StatementExecuted(s) && id !in Executed(s.finalbody)
    ensures Guards(s, trace, o) && id in trace
    decreases s, 0
  {
    if id in Executed(s.body) {
      var middle;
      trace, middle := ExecutedRuns(s.body, id);
      o := middle;
      if middle == Normal {
        o := SomeOutcome(s.orelse);
        var rest := OutcomeRuns(s.orelse, o);
        trace := trace + rest;
      }
    } else if Normal in Outcomes(s.body) && id in Executed(s.orelse) {
      var first := OutcomeRuns(s.body, Normal);
      var rest;
      rest, o := ExecutedRuns(s.orelse, id);
      trace := first + rest;
    } else {
      var first := OutcomeRuns(s.body, Raised);
      var i := BlockExecuting(s.handlers, id);
      var rest;
      rest, o := ExecutedRuns(s.handlers[i].stmts, id);
      trace := first + rest;
    }
  }

  lemma {:induction false} BlockExecuting(blocks: seq<Block>, id: nat) returns (i: nat)
    requires id in BlockExecuted(blocks)
    ensures i < |blocks| && id in Executed(blocks[i].stmts)
    decreases blocks, 0
  {
    if id in Executed(blocks[0].stmts) {
      i := 0;
    } else {
      i := BlockExecuting(blocks[1..], id);
      i := i + 1;
    }
  }

  ghost predicate CanExecute(stmts: seq<Stmt>, id: nat) {
    exists trace, o :: Runs(stmts, trace, o) && id in trace
  }

  /** The computed ids are exactly those of the returns some run executes. */
  lemma ExecutedExact(stmts: seq<Stmt>, id: nat)
    ensures id in Executed(stmts) <==> CanExecute(stmts, id)
  {
    hide Runs, Executed;
    if id in Executed(stmts) {
      var trace, o := ExecutedRuns(stmts, id);
    }
    if trace, o :| Runs(stmts, trace, o) && id in trace { RunExecutes(stmts, trace, o); }
  }

  lemma CanRaiseIff(stmts: seq<Stmt>)
    ensures CanRaise(stmts) <==> MayRaise(stmts)
  {
    hide Runs, Outcomes;
    OutcomesExact(stmts, Raised);
  }
}
