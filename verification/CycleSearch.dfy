/** The iterative search of `find_cycles`: its state, the invariant every step
    keeps, and, for each kind of step, why the invariant survives it. */
module CycleSearch {
  import opened Graphs

  type Numbers = map<Node, nat>
  type Edge = (Node, Node)

  /** The search variables. `path` holds the nodes of the explicit work stack,
      `seen` the edges already taken off a pending list, and `emitted` every
      component in the order its members left the stack, singletons included. */
  datatype State = State(
    order: Numbers,
    low: Numbers,
    stack: seq<Node>,
    onStack: set<Node>,
    counter: nat,
    path: seq<Node>,
    seen: set<Edge>,
    emitted: seq<set<Node>>)

  function At(m: Numbers, u: Node): nat { if u in m then m[u] else 0 }

  function Min(a: nat, b: nat): nat { if b < a then b else a }

  /** Discovery numbers are distinct and below the counter. */
  ghost predicate Numbered(g: Graph, order: Numbers, counter: nat) {
    && order.Keys <= Nodes(g)
    && (forall u :: u in order ==> At(order, u) < counter)
    && (forall u, v :: u in order && v in order && At(order, u) == At(order, v) ==> u == v)
  }

  /** A list of discovered nodes in discovery order. */
  ghost predicate InOrder(order: Numbers, nodes: seq<Node>) {
    && (forall u :: u in nodes ==> u in order)
    && (forall i, j :: 0 <= i < j < |nodes| ==> At(order, nodes[i]) < At(order, nodes[j]))
  }

  /** The stack lists `onStack`, and the open nodes are stacked. */
  ghost predicate Stacked(order: Numbers, stack: seq<Node>, onStack: set<Node>, path: seq<Node>) {
    && InOrder(order, stack)
    && InOrder(order, path)
    && (forall u :: u in onStack <==> u in stack)
    && (forall n :: n in path ==> n in onStack)
  }

  /** Seen edges join discovered nodes, and a node that is no longer open has no unseen edge. */
  ghost predicate EdgesSeen(g: Graph, order: Numbers, path: seq<Node>, seen: set<Edge>) {
    && (forall u, v :: (u, v) in seen ==> u in order && v in order && v in Succ(g, u))
    && (forall u, v :: u in order && u !in path && v in Succ(g, u) ==> (u, v) in seen)
  }

  /** Open nodes reach everything stacked above them. */
  ghost predicate OpenReaches(g: Graph, order: Numbers, onStack: set<Node>, path: seq<Node>) {
    forall n, u :: n in path && u in onStack && At(order, n) <= At(order, u) ==> Reach(g, n, u)
  }

  ghost predicate OpenBelow(g: Graph, order: Numbers, path: seq<Node>, n: Node, u: Node) {
    n in path && At(order, n) <= At(order, u) && Reach(g, u, n)
  }

  ghost predicate ReachesOpen(g: Graph, order: Numbers, path: seq<Node>, u: Node) {
    exists n :: OpenBelow(g, order, path, n, u)
  }

  /** Every stacked node reaches an open node at or below it. */
  ghost predicate StackedReachOpen(g: Graph, order: Numbers, onStack: set<Node>, path: seq<Node>) {
    forall u {:trigger ReachesOpen(g, order, path, u)} :: u in onStack ==> ReachesOpen(g, order, path, u)
  }

  ghost predicate LowWitness(g: Graph, order: Numbers, onStack: set<Node>, n: Node, low: nat, w: Node) {
    w in onStack && At(order, w) == low && Reach(g, n, w)
  }

  ghost predicate LowSound(g: Graph, order: Numbers, onStack: set<Node>, n: Node, low: nat) {
    exists w :: LowWitness(g, order, onStack, n, low, w)
  }

  ghost predicate LowAtMost(order: Numbers, path: seq<Node>, low: Numbers) {
    forall n :: n in path ==> n in low && At(low, n) <= At(order, n)
  }

  /** `low` of an open node is the number of some stacked node it reaches. */
  ghost predicate LowWitnessed(g: Graph, order: Numbers, onStack: set<Node>, path: seq<Node>, low: Numbers) {
    forall n {:trigger LowSound(g, order, onStack, n, At(low, n))} ::
      n in path ==> LowSound(g, order, onStack, n, At(low, n))
  }

  /** n is the topmost open node at or below u. */
  ghost predicate Owns(order: Numbers, path: seq<Node>, n: Node, u: Node) {
    && n in path && At(order, n) <= At(order, u)
    && (forall m :: m in path && At(order, m) <= At(order, u) ==> At(order, m) <= At(order, n))
  }

  /** No seen edge inside the stack leads below the `low` of its source's owner. */
  ghost predicate LowBounds(order: Numbers, onStack: set<Node>, path: seq<Node>, seen: set<Edge>, low: Numbers) {
    forall n, u, v :: Owns(order, path, n, u) && u in onStack && (u, v) in seen && v in onStack
                      ==> At(low, n) <= At(order, v)
  }

  ghost predicate Emitted(emitted: seq<set<Node>>, u: Node) {
    exists i :: 0 <= i < |emitted| && u in emitted[i]
  }

  ghost predicate ReverseTopological(g: Graph, emitted: seq<set<Node>>) {
    forall i, u, v :: 0 <= i < |emitted| && u in emitted[i] && v in Succ(g, u) ==> Emitted(emitted[..i + 1], v)
  }

  /** The emitted sets are disjoint components, they hold exactly the finished
      nodes, and no edge leads from one to a later one. */
  ghost predicate EmittedFinished(g: Graph, emitted: seq<set<Node>>, finished: set<Node>) {
    && (forall i :: 0 <= i < |emitted| ==> IsScc(g, emitted[i]))
    && (forall i, j :: 0 <= i < j < |emitted| ==> emitted[i] !! emitted[j])
    && (forall u {:trigger Emitted(emitted, u)} :: Emitted(emitted, u) <==> u in finished)
    && ReverseTopological(g, emitted)
  }

  ghost predicate Inv(g: Graph, s: State) {
    && Numbered(g, s.order, s.counter)
    && s.low.Keys == s.order.Keys
    && Stacked(s.order, s.stack, s.onStack, s.path)
    && EdgesSeen(g, s.order, s.path, s.seen)
    && OpenReaches(g, s.order, s.onStack, s.path)
    && StackedReachOpen(g, s.order, s.onStack, s.path)
    && LowAtMost(s.order, s.path, s.low)
    && LowWitnessed(g, s.order, s.onStack, s.path, s.low)
    && LowBounds(s.order, s.onStack, s.path, s.seen, s.low)
    && EmittedFinished(g, s.emitted, s.order.Keys - s.onStack)
  }

  function Top(s: State): Node
    requires s.path != []
  {
    s.path[|s.path| - 1]
  }

  lemma TopIsHighest(order: Numbers, path: seq<Node>, m: Node)
    requires InOrder(order, path) && m in path
    ensures path != [] && path[|path| - 1] in path
    ensures At(order, m) <= At(order, path[|path| - 1])
  {
    var i :| 0 <= i < |path| && path[i] == m;
    assert i < |path| - 1 ==> At(order, path[i]) < At(order, path[|path| - 1]);
  }

  // ---- Discovering a node -------------------------------------------------

  /** Number and stack n; the edge that led to it, if any, becomes seen. */
  function Discover(s: State, n: Node): State {
    s.(order := s.order[n := s.counter], low := s.low[n := s.counter], stack := s.stack + [n],
       onStack := s.onStack + {n}, counter := s.counter + 1, path := s.path + [n],
       seen := if s.path == [] then s.seen else s.seen + {(Top(s), n)})
  }

  ghost predicate Discoverable(g: Graph, s: State, n: Node) {
    && n in Nodes(g) && n !in s.order
    && (s.path != [] ==> n in Succ(g, Top(s)))
  }

  lemma DiscoverReaches(g: Graph, s: State, n: Node)
    requires Numbered(g, s.order, s.counter) && Stacked(s.order, s.stack, s.onStack, s.path)
    requires OpenReaches(g, s.order, s.onStack, s.path) && Discoverable(g, s, n)
    ensures var t := Discover(s, n); OpenReaches(g, t.order, t.onStack, t.path)
  {
    var t := Discover(s, n);
    forall m, u | m in t.path && u in t.onStack && At(t.order, m) <= At(t.order, u) ensures Reach(g, m, u) {
      if u == n {
        if m == n {
          ReachRefl(g, n);
        } else {
          TopIsHighest(s.order, s.path, m);
          ReachEdge(g, Top(s), n);
          ReachTrans(g, m, Top(s), n);
        }
      }
    }
  }

  lemma DiscoverOpen(g: Graph, s: State, n: Node)
    requires Stacked(s.order, s.stack, s.onStack, s.path)
    requires StackedReachOpen(g, s.order, s.onStack, s.path) && n !in s.order
    ensures var t := Discover(s, n); StackedReachOpen(g, t.order, t.onStack, t.path)
  {
    var t := Discover(s, n);
    ReachRefl(g, n);
    forall u | u in t.onStack ensures ReachesOpen(g, t.order, t.path, u) {
      if u == n {
        assert OpenBelow(g, t.order, t.path, n, n);
      } else {
        assert ReachesOpen(g, s.order, s.path, u);
        var m :| OpenBelow(g, s.order, s.path, m, u);
        assert OpenBelow(g, t.order, t.path, m, u);
      }
    }
  }

  lemma DiscoverLow(g: Graph, s: State, n: Node)
    requires Stacked(s.order, s.stack, s.onStack, s.path)
    requires LowWitnessed(g, s.order, s.onStack, s.path, s.low) && n !in s.order
    ensures var t := Discover(s, n); LowWitnessed(g, t.order, t.onStack, t.path, t.low)
  {
    var t := Discover(s, n);
    ReachRefl(g, n);
    forall m | m in t.path ensures LowSound(g, t.order, t.onStack, m, At(t.low, m)) {
      if m == n {
        assert LowWitness(g, t.order, t.onStack, n, s.counter, n);
      } else {
        assert LowSound(g, s.order, s.onStack, m, At(s.low, m));
        var w :| LowWitness(g, s.order, s.onStack, m, At(s.low, m), w);
        assert LowWitness(g, t.order, t.onStack, m, At(t.low, m), w);
      }
    }
  }

  /** A node discovered earlier keeps its owner. */
  lemma DiscoverOwner(g: Graph, s: State, n: Node, m: Node, u: Node)
    requires Numbered(g, s.order, s.counter) && InOrder(s.order, s.path) && n !in s.order && u in s.order
    requires var t := Discover(s, n); Owns(t.order, t.path, m, u)
    ensures Owns(s.order, s.path, m, u)
  {
    var t := Discover(s, n);
    assert At(t.order, u) == At(s.order, u) < s.counter == At(t.order, n);
    assert m != n && m in s.path;
    forall k | k in s.path && At(s.order, k) <= At(s.order, u) ensures At(s.order, k) <= At(s.order, m) {
      assert k in t.path && At(t.order, k) == At(s.order, k);
    }
  }

  lemma DiscoverLowBound(g: Graph, s: State, n: Node, m: Node, u: Node, v: Node)
    requires Numbered(g, s.order, s.counter) && InOrder(s.order, s.path) && n !in s.order
    requires LowAtMost(s.order, s.path, s.low)
    requires LowBounds(s.order, s.onStack, s.path, s.seen, s.low)
    requires var t := Discover(s, n); Owns(t.order, t.path, m, u)
    requires u in s.order && u in s.onStack && (v == n || ((u, v) in s.seen && v in s.order && v in s.onStack))
    ensures var t := Discover(s, n); At(t.low, m) <= At(t.order, v)
  {
    DiscoverOwner(g, s, n, m, u);
    assert At(Discover(s, n).low, m) == At(s.low, m);
  }

  lemma DiscoverLowBounds(g: Graph, s: State, n: Node)
    requires Numbered(g, s.order, s.counter) && Stacked(s.order, s.stack, s.onStack, s.path)
    requires forall u, v :: (u, v) in s.seen ==> u in s.order && v in s.order
    requires LowAtMost(s.order, s.path, s.low)
    requires LowBounds(s.order, s.onStack, s.path, s.seen, s.low) && n !in s.order
    ensures var t := Discover(s, n); LowBounds(t.order, t.onStack, t.path, t.seen, t.low)
  {
    var t := Discover(s, n);
    assert s.path != [] ==> Top(s) in s.path;
    forall m, u, v | Owns(t.order, t.path, m, u) && u in t.onStack && (u, v) in t.seen && v in t.onStack
      ensures At(t.low, m) <= At(t.order, v)
    {
      hide Owns, LowBounds;
      DiscoverLowBound(g, s, n, m, u, v);
    }
  }

  lemma InOrderAppend(order: Numbers, nodes: seq<Node>, n: Node, number: nat)
    requires InOrder(order, nodes) && n !in order && forall u :: u in order ==> At(order, u) < number
    ensures InOrder(order[n := number], nodes + [n])
  {
    var order' := order[n := number];
    var nodes' := nodes + [n];
    forall i, j | 0 <= i < j < |nodes'| ensures At(order', nodes'[i]) < At(order', nodes'[j]) {
      assert nodes[i] in nodes;
      assert j < |nodes| ==> nodes[j] in nodes;
    }
  }

  lemma DiscoverStacked(g: Graph, s: State, n: Node)
    requires Numbered(g, s.order, s.counter) && Stacked(s.order, s.stack, s.onStack, s.path)
    requires n in Nodes(g) && n !in s.order
    ensures var t := Discover(s, n);
      Numbered(g, t.order, t.counter) && Stacked(t.order, t.stack, t.onStack, t.path)
  {
    var t := Discover(s, n);
    InOrderAppend(s.order, s.stack, n, s.counter);
    InOrderAppend(s.order, s.path, n, s.counter);
  }

  lemma DiscoverEdges(g: Graph, s: State, n: Node)
    requires Stacked(s.order, s.stack, s.onStack, s.path)
    requires EdgesSeen(g, s.order, s.path, s.seen) && Discoverable(g, s, n)
    ensures var t := Discover(s, n); EdgesSeen(g, t.order, t.path, t.seen)
  {
    assert s.path != [] ==> Top(s) in s.path;
  }

  lemma DiscoverKeeps(g: Graph, s: State, n: Node)
    requires Inv(g, s) && Discoverable(g, s, n)
    ensures Inv(g, Discover(s, n))
  {
    hide OpenReaches, StackedReachOpen, LowWitnessed, LowBounds, EmittedFinished, InOrder, Numbered;
    var t := Discover(s, n);
    DiscoverStacked(g, s, n);
    DiscoverEdges(g, s, n);
    DiscoverReaches(g, s, n);
    DiscoverOpen(g, s, n);
    DiscoverLow(g, s, n);
    DiscoverLowBounds(g, s, n);
    assert t.order.Keys - t.onStack == s.order.Keys - s.onStack;
  }

  // ---- Looking at an edge to a discovered node ----------------------------

  /** The top node's edge to v becomes seen; a stacked v lowers `low` of the top node. */
  function Look(s: State, v: Node): State
    requires s.path != []
  {
    s.(seen := s.seen + {(Top(s), v)},
       low := if v in s.onStack then s.low[Top(s) := Min(At(s.low, Top(s)), At(s.order, v))] else s.low)
  }

  ghost predicate Lookable(g: Graph, s: State, v: Node) {
    s.path != [] && v in s.order && v in Succ(g, Top(s))
  }

  lemma LookLow(g: Graph, s: State, v: Node)
    requires Stacked(s.order, s.stack, s.onStack, s.path)
    requires LowWitnessed(g, s.order, s.onStack, s.path, s.low) && Lookable(g, s, v)
    ensures var t := Look(s, v); LowWitnessed(g, t.order, t.onStack, t.path, t.low)
  {
    var t := Look(s, v);
    forall n | n in t.path ensures LowSound(g, t.order, t.onStack, n, At(t.low, n)) {
      assert LowSound(g, s.order, s.onStack, n, At(s.low, n));
      if At(t.low, n) != At(s.low, n) {
        ReachEdge(g, Top(s), v);
        assert LowWitness(g, t.order, t.onStack, n, At(t.low, n), v);
      }
    }
  }

  lemma LookLowBounds(s: State, v: Node)
    requires Stacked(s.order, s.stack, s.onStack, s.path)
    requires LowBounds(s.order, s.onStack, s.path, s.seen, s.low) && s.path != []
    ensures var t := Look(s, v); LowBounds(t.order, t.onStack, t.path, t.seen, t.low)
  {
    var t := Look(s, v);
    forall n, u, w | Owns(t.order, t.path, n, u) && u in t.onStack && (u, w) in t.seen && w in t.onStack
      ensures At(t.low, n) <= At(t.order, w)
    {
      assert At(t.low, n) <= At(s.low, n);
      if (u, w) !in s.seen {
        TopIsHighest(s.order, s.path, n);
        assert At(s.order, n) == At(s.order, Top(s));
        OwnerOfTop(s.order, s.path, n);
      }
    }
  }

  lemma OwnerOfTop(order: Numbers, path: seq<Node>, n: Node)
    requires InOrder(order, path) && n in path && At(order, n) == At(order, path[|path| - 1])
    ensures n == path[|path| - 1]
  {
    var i :| 0 <= i < |path| && path[i] == n;
    assert i < |path| - 1 ==> At(order, path[i]) < At(order, path[|path| - 1]);
  }

  lemma LookEdges(g: Graph, s: State, v: Node)
    requires Stacked(s.order, s.stack, s.onStack, s.path)
    requires EdgesSeen(g, s.order, s.path, s.seen) && Lookable(g, s, v)
    ensures EdgesSeen(g, s.order, s.path, Look(s, v).seen)
    ensures Look(s, v).low.Keys == s.low.Keys + if v in s.onStack then {Top(s)} else {}
    ensures LowAtMost(s.order, s.path, s.low) ==> LowAtMost(s.order, s.path, Look(s, v).low)
  {
    assert Top(s) in s.path;
  }

  lemma LookKeeps(g: Graph, s: State, v: Node)
    requires Inv(g, s) && Lookable(g, s, v)
    ensures Inv(g, Look(s, v))
  {
    var t := Look(s, v);
    LookLow(g, s, v);
    LookLowBounds(s, v);
    LookEdges(g, s, v);
  }

  // ---- Closing the top node -----------------------------------------------

  ghost predicate Closable(g: Graph, s: State) {
    s.path != [] && forall v :: v in Succ(g, Top(s)) ==> (Top(s), v) in s.seen
  }

  /** The stacked nodes at or above n. */
  function Above(order: Numbers, onStack: set<Node>, n: Node): set<Node> {
    set u | u in onStack && At(order, n) <= At(order, u)
  }

  function LowerParent(s: State): Numbers
    requires s.path != []
  {
    if |s.path| == 1 then s.low else
      var parent := s.path[|s.path| - 2];
      s.low[parent := Min(At(s.low, parent), At(s.low, Top(s)))]
  }

  /** Pop the top node; its `low` flows to its parent. */
  function Close(s: State): State
    requires s.path != []
  {
    s.(path := s.path[..|s.path| - 1], low := LowerParent(s))
  }

  /** Pop the top node and emit everything stacked at or above it. */
  function CloseRoot(s: State, stack: seq<Node>): State
    requires s.path != []
  {
    var component := Above(s.order, s.onStack, Top(s));
    Close(s).(stack := stack, onStack := s.onStack - component, emitted := s.emitted + [component])
  }

  lemma BelowTop(s: State, m: Node)
    requires InOrder(s.order, s.path) && m in s.path && m != Top(s)
    ensures m in s.path[..|s.path| - 1] && At(s.order, m) < At(s.order, Top(s))
  {
    var i :| 0 <= i < |s.path| && s.path[i] == m;
    assert s.path[..|s.path| - 1][i] == m;
  }

  lemma TopNotBelow(s: State)
    requires s.path != [] && InOrder(s.order, s.path)
    ensures Top(s) in s.path && Top(s) !in s.path[..|s.path| - 1]
    ensures forall m :: m in s.path[..|s.path| - 1] ==> m in s.path && At(s.order, m) < At(s.order, Top(s))
  {
    forall m | m in s.path[..|s.path| - 1] ensures m in s.path && At(s.order, m) < At(s.order, Top(s)) {
      var i :| 0 <= i < |s.path| - 1 && s.path[i] == m;
    }
  }

  lemma InOrderPrefix(order: Numbers, nodes: seq<Node>, k: nat)
    requires InOrder(order, nodes) && k <= |nodes|
    ensures InOrder(order, nodes[..k])
  {
    assert forall u :: u in nodes[..k] ==> u in nodes;
  }

  lemma CloseEdges(g: Graph, s: State)
    requires InOrder(s.order, s.path) && EdgesSeen(g, s.order, s.path, s.seen) && Closable(g, s)
    ensures EdgesSeen(g, s.order, s.path[..|s.path| - 1], s.seen)
  {
    forall u, v | u in s.order && u !in s.path[..|s.path| - 1] && v in Succ(g, u) ensures (u, v) in s.seen {
      if u in s.path && u != Top(s) { BelowTop(s, u); assert false; }
    }
  }

  /** Emitted sets are closed under successors. */
  lemma FinishedClosed(g: Graph, emitted: seq<set<Node>>, finished: set<Node>)
    requires EmittedFinished(g, emitted, finished)
    ensures Closed(g, finished)
  {
    forall u, v | u in finished && v in Succ(g, u) ensures v in finished {
      assert Emitted(emitted, u);
      var i :| 0 <= i < |emitted| && u in emitted[i];
      assert Emitted(emitted[..i + 1], v);
      var j :| 0 <= j < |emitted[..i + 1]| && v in emitted[..i + 1][j];
      assert v in emitted[j];
      assert Emitted(emitted, v);
    }
  }

  lemma TopOwnsAbove(order: Numbers, path: seq<Node>, u: Node)
    requires path != [] && InOrder(order, path) && At(order, path[|path| - 1]) <= At(order, u)
    ensures Owns(order, path, path[|path| - 1], u)
  {
    assert path[|path| - 1] in path;
    forall m | m in path ensures At(order, m) <= At(order, path[|path| - 1]) { TopIsHighest(order, path, m); }
  }

  lemma RootEdge(g: Graph, s: State, u: Node, v: Node)
    requires Stacked(s.order, s.stack, s.onStack, s.path) && EdgesSeen(g, s.order, s.path, s.seen)
    requires LowBounds(s.order, s.onStack, s.path, s.seen, s.low)
    requires Closable(g, s) && At(s.low, Top(s)) == At(s.order, Top(s))
    requires u in Above(s.order, s.onStack, Top(s)) && v in Succ(g, u)
    ensures v in s.order && (v in s.onStack ==> v in Above(s.order, s.onStack, Top(s)))
  {
    RootEdgeSeen(g, s, u, v);
    hide Closable, EdgesSeen;
    if v in s.onStack { RootEdgeAbove(s, u, v); }
  }

  lemma RootEdgeSeen(g: Graph, s: State, u: Node, v: Node)
    requires Stacked(s.order, s.stack, s.onStack, s.path) && EdgesSeen(g, s.order, s.path, s.seen) && Closable(g, s)
    requires u in Above(s.order, s.onStack, Top(s)) && v in Succ(g, u)
    ensures (u, v) in s.seen && v in s.order
  {
    if u in s.path { TopIsHighest(s.order, s.path, u); OwnerOfTop(s.order, s.path, u); }
  }

  lemma RootEdgeAbove(s: State, u: Node, v: Node)
    requires s.path != [] && InOrder(s.order, s.path) && LowBounds(s.order, s.onStack, s.path, s.seen, s.low)
    requires At(s.low, Top(s)) == At(s.order, Top(s))
    requires u in Above(s.order, s.onStack, Top(s)) && (u, v) in s.seen && v in s.onStack
    ensures v in Above(s.order, s.onStack, Top(s))
  {
    hide InOrder, Owns;
    TopOwnsAbove(s.order, s.path, u);
  }

  /** When `low` of the top node is its own number, nothing at or above it
      leads anywhere but to itself and to finished nodes. */
  lemma RootClosed(g: Graph, s: State)
    requires Inv(g, s) && Closable(g, s) && At(s.low, Top(s)) == At(s.order, Top(s))
    ensures Closed(g, Above(s.order, s.onStack, Top(s)) + (s.order.Keys - s.onStack))
  {
    var component := Above(s.order, s.onStack, Top(s));
    var finished := s.order.Keys - s.onStack;
    FinishedClosed(g, s.emitted, finished);
    forall u, v | u in component + finished && v in Succ(g, u) ensures v in component + finished {
      if u in component { RootEdge(g, s, u, v); }
    }
  }

  lemma RootMutual(g: Graph, s: State, u: Node)
    requires s.path != [] && Stacked(s.order, s.stack, s.onStack, s.path)
    requires OpenReaches(g, s.order, s.onStack, s.path) && StackedReachOpen(g, s.order, s.onStack, s.path)
    requires u in Above(s.order, s.onStack, Top(s))
    ensures Mutual(g, Top(s), u)
  {
    var n := Top(s);
    assert n in s.path;
    assert ReachesOpen(g, s.order, s.path, u);
    var m :| OpenBelow(g, s.order, s.path, m, u);
    TopIsHighest(s.order, s.path, m);
    ReachTrans(g, u, m, n);
  }

  lemma RootIsScc(g: Graph, s: State)
    requires Inv(g, s) && Closable(g, s) && At(s.low, Top(s)) == At(s.order, Top(s))
    ensures IsScc(g, Above(s.order, s.onStack, Top(s)))
  {
    var n := Top(s);
    var component := Above(s.order, s.onStack, n);
    var finished := s.order.Keys - s.onStack;
    assert n in s.path && n in component;
    forall u, v | u in component && v in component ensures Reach(g, u, v) {
      RootMutual(g, s, u);
      RootMutual(g, s, v);
      ReachTrans(g, u, n, v);
    }
    RootClosed(g, s);
    FinishedClosed(g, s.emitted, finished);
    forall u, v | u in component && Mutual(g, u, v) ensures v in component {
      ReachStaysInClosed(g, component + finished, u, v);
      if v in finished { ReachStaysInClosed(g, finished, v, u); assert false; }
    }
  }

  lemma EmitComponent(g: Graph, emitted: seq<set<Node>>, finished: set<Node>, component: set<Node>)
    requires EmittedFinished(g, emitted, finished) && IsScc(g, component) && component !! finished
    requires Closed(g, component + finished)
    ensures EmittedFinished(g, emitted + [component], finished + component)
  {
    var emitted' := emitted + [component];
    forall i | 0 <= i < |emitted| ensures emitted[i] !! component {
      forall u | u in emitted[i] ensures u !in component { assert Emitted(emitted, u); }
    }
    forall u ensures Emitted(emitted', u) <==> u in finished + component {
      if Emitted(emitted, u) {
        var i :| 0 <= i < |emitted| && u in emitted[i];
        assert u in emitted'[i];
      }
      if u in component { assert u in emitted'[|emitted|]; }
      if Emitted(emitted', u) && u !in component {
        var i :| 0 <= i < |emitted'| && u in emitted'[i];
        assert u in emitted[i];
        assert Emitted(emitted, u);
      }
    }
    forall i, u, v | 0 <= i < |emitted'| && u in emitted'[i] && v in Succ(g, u) ensures Emitted(emitted'[..i + 1], v) {
      if i < |emitted| {
        assert u in emitted[i];
        assert emitted'[..i + 1] == emitted[..i + 1];
      } else {
        assert emitted'[..i + 1] == emitted';
        assert u in component + finished;
        assert v in component + finished;
      }
    }
  }

  lemma CloseRootLow(g: Graph, s: State)
    requires InOrder(s.order, s.path) && LowAtMost(s.order, s.path, s.low) && s.path != []
    requires At(s.low, Top(s)) == At(s.order, Top(s))
    ensures LowerParent(s) == s.low
  {
    TopNotBelow(s);
    if |s.path| > 1 {
      assert s.path[|s.path| - 2] in s.path[..|s.path| - 1];
      assert s.path[|s.path| - 2] in s.low;
    }
  }

  /** Removing the top component leaves the clauses about reachability intact. */
  lemma CloseRootReaches(g: Graph, s: State)
    requires s.path != [] && Stacked(s.order, s.stack, s.onStack, s.path)
    requires OpenReaches(g, s.order, s.onStack, s.path) && StackedReachOpen(g, s.order, s.onStack, s.path)
    ensures var path := s.path[..|s.path| - 1]; var onStack := s.onStack - Above(s.order, s.onStack, Top(s));
      OpenReaches(g, s.order, onStack, path) && StackedReachOpen(g, s.order, onStack, path)
  {
    var path := s.path[..|s.path| - 1];
    var onStack := s.onStack - Above(s.order, s.onStack, Top(s));
    TopNotBelow(s);
    forall u | u in onStack ensures ReachesOpen(g, s.order, path, u) {
      assert ReachesOpen(g, s.order, s.path, u);
      var m :| OpenBelow(g, s.order, s.path, m, u);
      BelowTop(s, m);
      assert OpenBelow(g, s.order, path, m, u);
    }
  }

  lemma CloseRootLows(g: Graph, s: State)
    requires s.path != [] && Stacked(s.order, s.stack, s.onStack, s.path)
    requires LowAtMost(s.order, s.path, s.low) && LowWitnessed(g, s.order, s.onStack, s.path, s.low)
    requires LowBounds(s.order, s.onStack, s.path, s.seen, s.low)
    ensures var path := s.path[..|s.path| - 1]; var onStack := s.onStack - Above(s.order, s.onStack, Top(s));
      LowWitnessed(g, s.order, onStack, path, s.low) && LowBounds(s.order, onStack, path, s.seen, s.low)
  {
    var path := s.path[..|s.path| - 1];
    var onStack := s.onStack - Above(s.order, s.onStack, Top(s));
    TopNotBelow(s);
    forall m | m in path ensures LowSound(g, s.order, onStack, m, At(s.low, m)) {
      assert LowSound(g, s.order, s.onStack, m, At(s.low, m));
      var w :| LowWitness(g, s.order, s.onStack, m, At(s.low, m), w);
      assert LowWitness(g, s.order, onStack, m, At(s.low, m), w);
    }
    forall m, u, v | Owns(s.order, path, m, u) && u in onStack && (u, v) in s.seen && v in onStack
      ensures At(s.low, m) <= At(s.order, v)
    {
      OwnsBelowTop(s, m, u);
    }
  }

  lemma OwnsBelowTop(s: State, m: Node, u: Node)
    requires s.path != [] && InOrder(s.order, s.path) && At(s.order, u) < At(s.order, Top(s))
    requires Owns(s.order, s.path[..|s.path| - 1], m, u)
    ensures Owns(s.order, s.path, m, u)
  {
    TopNotBelow(s);
    forall k | k in s.path && At(s.order, k) <= At(s.order, u) ensures At(s.order, k) <= At(s.order, m) {
      if k != Top(s) { BelowTop(s, k); }
    }
  }

  /** The stack without the closed component. */
  ghost predicate CutStack(s: State, stack: seq<Node>)
    requires s.path != []
  {
    && InOrder(s.order, stack)
    && (forall u :: u in stack <==> u in s.onStack - Above(s.order, s.onStack, Top(s)))
  }

  lemma CloseRootStacked(s: State, stack: seq<Node>)
    requires s.path != [] && Stacked(s.order, s.stack, s.onStack, s.path) && CutStack(s, stack)
    ensures var t := CloseRoot(s, stack); Stacked(t.order, t.stack, t.onStack, t.path)
  {
    TopNotBelow(s);
    InOrderPrefix(s.order, s.path, |s.path| - 1);
    hide InOrder;
  }

  lemma CloseRootFinished(s: State)
    requires s.onStack <= s.order.Keys
    ensures forall n :: var component := Above(s.order, s.onStack, n);
      s.order.Keys - (s.onStack - component) == (s.order.Keys - s.onStack) + component
      && component !! (s.order.Keys - s.onStack)
  {
  }

  lemma StackedKnown(s: State)
    requires Stacked(s.order, s.stack, s.onStack, s.path)
    ensures s.onStack <= s.order.Keys && InOrder(s.order, s.path)
  {
  }

  lemma CloseRootKeeps(g: Graph, s: State, stack: seq<Node>)
    requires Inv(g, s) && Closable(g, s) && At(s.low, Top(s)) == At(s.order, Top(s))
    requires CutStack(s, stack)
    ensures Inv(g, CloseRoot(s, stack))
  {
    hide IsScc, Closed, OpenReaches, StackedReachOpen, LowWitnessed, LowBounds, EmittedFinished, EdgesSeen, Above,
         Stacked, InOrder, CutStack, Numbered;
    var component := Above(s.order, s.onStack, Top(s));
    StackedKnown(s);
    CloseRootFinished(s);
    CloseRootLow(g, s);
    CloseEdges(g, s);
    CloseRootReaches(g, s);
    CloseRootLows(g, s);
    RootIsScc(g, s);
    RootClosed(g, s);
    EmitComponent(g, s.emitted, s.order.Keys - s.onStack, component);
    TopNotBelow(s);
    CloseRootStacked(s, stack);
  }

  // ---- Closing a node that is not a component root ------------------------

  /** A node whose `low` is below its number reaches an open node below itself. */
  lemma NonRootReachesLower(g: Graph, s: State) returns (m: Node)
    requires s.path != [] && Stacked(s.order, s.stack, s.onStack, s.path)
    requires LowWitnessed(g, s.order, s.onStack, s.path, s.low) && StackedReachOpen(g, s.order, s.onStack, s.path)
    requires At(s.low, Top(s)) < At(s.order, Top(s))
    ensures m in s.path[..|s.path| - 1] && Reach(g, Top(s), m)
  {
    var n := Top(s);
    assert n in s.path;
    assert LowSound(g, s.order, s.onStack, n, At(s.low, n));
    var w :| LowWitness(g, s.order, s.onStack, n, At(s.low, n), w);
    assert ReachesOpen(g, s.order, s.path, w);
    m :| OpenBelow(g, s.order, s.path, m, w);
    BelowTop(s, m);
    ReachTrans(g, n, w, m);
  }

  lemma CloseReachOpen(g: Graph, s: State)
    requires s.path != [] && Stacked(s.order, s.stack, s.onStack, s.path)
    requires LowWitnessed(g, s.order, s.onStack, s.path, s.low) && StackedReachOpen(g, s.order, s.onStack, s.path)
    requires At(s.low, Top(s)) < At(s.order, Top(s))
    ensures StackedReachOpen(g, s.order, s.onStack, s.path[..|s.path| - 1])
    ensures |s.path| > 1
  {
    var path := s.path[..|s.path| - 1];
    var k := NonRootReachesLower(g, s);
    TopNotBelow(s);
    forall u | u in s.onStack ensures ReachesOpen(g, s.order, path, u) {
      assert ReachesOpen(g, s.order, s.path, u);
      var m :| OpenBelow(g, s.order, s.path, m, u);
      if m == Top(s) {
        ReachTrans(g, u, m, k);
        assert OpenBelow(g, s.order, path, k, u);
      } else {
        BelowTop(s, m);
        assert OpenBelow(g, s.order, path, m, u);
      }
    }
  }

  lemma CloseLow(g: Graph, s: State)
    requires |s.path| > 1 && Stacked(s.order, s.stack, s.onStack, s.path)
    requires OpenReaches(g, s.order, s.onStack, s.path)
    requires LowAtMost(s.order, s.path, s.low) && LowWitnessed(g, s.order, s.onStack, s.path, s.low)
    ensures var t := Close(s); LowAtMost(t.order, t.path, t.low) && LowWitnessed(g, t.order, t.onStack, t.path, t.low)
  {
    var t := Close(s);
    var parent := s.path[|s.path| - 2];
    var n := Top(s);
    assert parent in s.path && n in s.path;
    TopNotBelow(s);
    assert t.path[|t.path| - 1] == parent;
    forall m | m in t.path ensures LowSound(g, t.order, t.onStack, m, At(t.low, m)) {
      assert LowSound(g, s.order, s.onStack, m, At(s.low, m));
      if At(t.low, m) != At(s.low, m) {
        assert LowSound(g, s.order, s.onStack, n, At(s.low, n));
        var w :| LowWitness(g, s.order, s.onStack, n, At(s.low, n), w);
        ReachTrans(g, m, n, w);
        assert LowWitness(g, t.order, t.onStack, m, At(t.low, m), w);
      }
    }
  }

  /** What the popped node owned, its parent owns. */
  lemma CloseOwner(order: Numbers, path: seq<Node>, m: Node, u: Node)
    requires |path| > 1 && InOrder(order, path) && Owns(order, path[..|path| - 1], m, u)
    requires At(order, path[|path| - 1]) <= At(order, u)
    ensures m == path[|path| - 2]
  {
    var rest := path[..|path| - 1];
    InOrderPrefix(order, path, |path| - 1);
    assert rest[|rest| - 1] == path[|path| - 2];
    TopIsHighest(order, rest, m);
    assert At(order, path[|path| - 2]) < At(order, path[|path| - 1]);
    OwnerOfTop(order, rest, m);
  }

  lemma CloseLowBound(s: State, m: Node, u: Node, v: Node)
    requires |s.path| > 1 && InOrder(s.order, s.path)
    requires LowBounds(s.order, s.onStack, s.path, s.seen, s.low)
    requires Owns(s.order, Close(s).path, m, u) && u in s.onStack && (u, v) in s.seen && v in s.onStack
    ensures At(Close(s).low, m) <= At(s.order, v)
  {
    hide InOrder;
    if At(s.order, u) < At(s.order, Top(s)) {
      OwnsBelowTop(s, m, u);
    } else {
      TopOwnsAbove(s.order, s.path, u);
      CloseOwner(s.order, s.path, m, u);
    }
  }

  lemma CloseLowBounds(s: State)
    requires |s.path| > 1 && InOrder(s.order, s.path)
    requires LowBounds(s.order, s.onStack, s.path, s.seen, s.low)
    ensures var t := Close(s); LowBounds(t.order, t.onStack, t.path, t.seen, t.low)
  {
    var t := Close(s);
    forall m, u, v | Owns(t.order, t.path, m, u) && u in t.onStack && (u, v) in t.seen && v in t.onStack
      ensures At(t.low, m) <= At(t.order, v)
    {
      CloseLowBound(s, m, u, v);
    }
  }

  lemma CloseKeeps(g: Graph, s: State)
    requires Inv(g, s) && Closable(g, s) && At(s.low, Top(s)) < At(s.order, Top(s))
    ensures Inv(g, Close(s)) && |s.path| > 1
  {
    var t := Close(s);
    CloseReachOpen(g, s);
    CloseLow(g, s);
    CloseLowBounds(s);
    CloseEdges(g, s);
    TopNotBelow(s);
    InOrderPrefix(s.order, s.path, |s.path| - 1);
    assert s.path[|s.path| - 2] in s.path;
    assert t.low.Keys == s.low.Keys;
    assert OpenReaches(g, t.order, t.onStack, t.path);
  }
}
