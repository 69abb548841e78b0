/** The statements of a function body as scripts/check_container_image_pins.py
    sees them, and a big-step semantics for them. */
module ReturnSemantics {
  /** An element of a list, set, tuple or dict display; a starred one may unpack to nothing. */
  datatype Element = Plain | Starred

  datatype Expr =
    | Constant(truthy: bool)
    | Display(elements: seq<Element>)
    | Not(operand: Expr)
    | Dynamic

  datatype Block = Block(stmts: seq<Stmt>)

  /** `id` tells return statements apart; `swallows` says whether the context
      managers of a `with` may suppress an exception. */
  datatype Stmt =
    | Return(id: nat)
    | Break
    | Continue
    | Raise
    | If(test: Expr, body: seq<Stmt>, orelse: seq<Stmt>)
    | With(body: seq<Stmt>, swallows: bool)
    | Loop(body: seq<Stmt>, orelse: seq<Stmt>)
    | Try(body: seq<Stmt>, handlers: seq<Block>, orelse: seq<Stmt>, finalbody: seq<Stmt>)
    | Match(cases: seq<Block>)
    | Simple

  // ---- The semantics ------------------------------------------------------

  datatype Outcome = Normal | Broke | Continued | Raised | Returned(id: nat)

  /** The truth values a test can take in some state. */
  predicate CanBe(e: Expr, b: bool) {
    match e
    case Constant(truthy) => b == truthy
    case Display(elements) =>
      if Plain in elements then b else if elements == [] then !b else true
    case Not(operand) => CanBe(operand, !b)
    case Dynamic => true
  }

  /** Some run of the statements executes the returns in `trace`, in order, and
      ends with outcome o. Evaluating any part of a statement may raise. */
  ghost predicate Runs(stmts: seq<Stmt>, trace: seq<nat>, o: Outcome)
    decreases stmts, 0
  {
    if stmts == [] then trace == [] && o == Normal else
      exists first, middle :: Steps(stmts[0], first, middle) && After(first, middle, stmts[1..], trace, o)
  }

  ghost predicate After(first: seq<nat>, middle: Outcome, stmts: seq<Stmt>, trace: seq<nat>, o: Outcome)
    decreases stmts, 1
  {
    if middle == Normal
    then exists rest :: trace == first + rest && Runs(stmts, rest, o)
    else trace == first && o == middle
  }

  ghost predicate Steps(s: Stmt, trace: seq<nat>, o: Outcome)
    decreases s, 2
  {
    match s
    case Return(id) => (trace == [id] && o == Returned(id)) || (trace == [] && o == Raised)
    case Break => trace == [] && o == Broke
    case Continue => trace == [] && o == Continued
    case Raise => trace == [] && o == Raised
    case If(test, body, orelse) =>
      || (trace == [] && o == Raised)
      || (CanBe(test, true) && Runs(body, trace, o))
      || (CanBe(test, false) && Runs(orelse, trace, o))
    case With(body, swallows) =>
      || (trace == [] && o == Raised)
      || (exists inner :: Runs(body, trace, inner)
            && (o == inner || o == Raised || (swallows && inner == Raised && o == Normal)))
    case Loop(_, _) => exists n :: Loops(s, n, trace, o)
    case Try(_, _, _, finalbody) =>
      exists guarded, inner, last, final ::
        && Guards(s, guarded, inner) && Runs(finalbody, last, final)
        && trace == guarded + last && o == (if final == Normal then inner else final)
    case Match(cases) =>
      || (trace == [] && (o == Normal || o == Raised))
      || (exists i :: 0 <= i < |cases| && Runs(cases[i].stmts, trace, o))
    case Simple => trace == [] && (o == Normal || o == Raised)
  }

  /** A loop that starts at most n iterations. */
  ghost predicate Loops(s: Stmt, n: nat, trace: seq<nat>, o: Outcome)
    requires s.Loop?
    decreases s, 1, n
  {
    || (trace == [] && o == Raised)
    || Runs(s.orelse, trace, o)
    || (n > 0 && exists first, middle ::
          && Runs(s.body, first, middle)
          && match middle
             case Normal => exists rest :: trace == first + rest && Loops(s, n - 1, rest, o)
             case Continued => exists rest :: trace == first + rest && Loops(s, n - 1, rest, o)
             case Broke => trace == first && o == Normal
             case _ => trace == first && o == middle)
  }

  /** A `try` up to, and without, its `finally`. */
  ghost predicate Guards(s: Stmt, trace: seq<nat>, o: Outcome)
    requires s.Try?
    decreases s, 1
  {
    exists first, middle ::
      && Runs(s.body, first, middle)
      && match middle
         case Normal => exists rest :: trace == first + rest && Runs(s.orelse, rest, o)
         case Raised =>
           || (trace == first && o == Raised)
           || (exists i, rest :: 0 <= i < |s.handlers| && trace == first + rest && Runs(s.handlers[i].stmts, rest, o))
         case _ => trace == first && o == middle
  }

  // ---- Composing runs -----------------------------------------------------

  lemma WithBodyRun(body: seq<Stmt>, swallows: bool, trace: seq<nat>, o: Outcome) returns (inner: Outcome)
    requires Steps(With(body, swallows), trace, o) && !(trace == [] && o == Raised)
    ensures Runs(body, trace, inner)
    ensures o == inner || o == Raised || (swallows && inner == Raised && o == Normal)
  {
    inner :| Runs(body, trace, inner) && (o == inner || o == Raised || (swallows && inner == Raised && o == Normal));
  }

  lemma RunsTwo(s: Stmt, rest: seq<Stmt>, first: seq<nat>, trace: seq<nat>, o: Outcome)
    requires Steps(s, first, Normal) && Runs(rest, trace, o)
    ensures Runs([s] + rest, first + trace, o)
  {
    var stmts := [s] + rest;
    assert stmts[1..] == rest;
    assert After(first, Normal, stmts[1..], first + trace, o);
  }

  lemma RunsOne(s: Stmt, trace: seq<nat>, o: Outcome)
    requires Steps(s, trace, o) && o != Normal
    ensures Runs([s], trace, o)
  {
    assert After(trace, o, [s][1..], trace, o);
  }

  lemma RunsReturn(id: nat)
    ensures Runs([Return(id)], [id], Returned(id))
  {
    RunsOne(Return(id), [id], Returned(id));
  }

  ghost predicate CanRaise(stmts: seq<Stmt>) {
    exists trace :: Runs(stmts, trace, Raised)
  }
}
