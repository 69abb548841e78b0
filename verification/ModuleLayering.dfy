/** scripts/check_module_layering.py: the cycle search as the script runs it,
    the module graph it runs on, and the gate. */
module ModuleLayering {
  import opened Orders
  import opened Graphs
  import opened CycleSearch

  /** One entry of the explicit work stack: a node and its neighbours still to look at. */
  datatype Frame = Frame(node: Node, pending: seq<Node>)

  function Edges(g: Graph): set<Edge> {
    set u, v | u in g && v in g[u] :: (u, v)
  }

  function PathOf(work: seq<Frame>): (path: seq<Node>)
    ensures |path| == |work| && forall i :: 0 <= i < |work| ==> path[i] == work[i].node
  {
    seq(|work|, i requires 0 <= i < |work| => work[i].node)
  }

  /** A frame's pending list holds each unseen edge of its node exactly once. */
  ghost predicate FrameOk(g: Graph, f: Frame, seen: set<Edge>) {
    && (forall i, j :: 0 <= i < j < |f.pending| ==> f.pending[i] != f.pending[j])
    && (forall v :: v in f.pending <==> v in Succ(g, f.node) && (f.node, v) !in seen)
  }

  ghost predicate WorkOk(g: Graph, work: seq<Frame>, seen: set<Edge>) {
    forall i :: 0 <= i < |work| ==> FrameOk(g, work[i], seen)
  }

  /** The components with more than one member, in emission order. */
  function Large(emitted: seq<set<Node>>): seq<set<Node>> {
    if emitted == [] then [] else
      var last := emitted[|emitted| - 1];
      Large(emitted[..|emitted| - 1]) + if |last| > 1 then [last] else []
  }

  lemma {:induction false} LargeMembers(emitted: seq<set<Node>>)
    ensures forall c :: c in Large(emitted) <==> c in emitted && |c| > 1
  {
    if emitted != [] {
      LargeMembers(emitted[..|emitted| - 1]);
      assert emitted == emitted[..|emitted| - 1] + [emitted[|emitted| - 1]];
    }
  }

  /** No edge of the node has been looked at. */
  ghost predicate Unmet(n: Node, seen: set<Edge>) {
    forall e :: e in seen ==> e.0 != n
  }

  lemma FreshFrame(g: Graph, n: Node, seen: set<Edge>)
    requires Unmet(n, seen)
    ensures FrameOk(g, Frame(n, Sorted(Succ(g, n))), seen)
  {
    NameLessStrictTotal();
    var pending := Sorted(Succ(g, n));
    forall i, j | 0 <= i < j < |pending| ensures pending[i] != pending[j] {
      assert NameLess(pending[i], pending[j]);
    }
  }

  lemma ShorterFrame(g: Graph, f: Frame, seen: set<Edge>)
    requires FrameOk(g, f, seen) && f.pending != []
    ensures var k := |f.pending| - 1;
      && FrameOk(g, Frame(f.node, f.pending[..k]), seen + {(f.node, f.pending[k])})
      && f.pending[k] in Succ(g, f.node) && (f.node, f.pending[k]) !in seen
  {
    var k := |f.pending| - 1;
    assert f.pending == f.pending[..k] + [f.pending[k]];
    assert f.pending[k] in f.pending;
  }

  function Elements(s: seq<Node>): set<Node> {
    set u | u in s
  }

  lemma NothingPopped(stack: seq<Node>)
    ensures stack[..|stack|] == stack && Elements(stack[|stack|..]) == {}
  {
  }

  lemma PopOne(stack: seq<Node>, k: nat)
    requires 0 < k <= |stack|
    ensures Elements(stack[k - 1..]) == Elements(stack[k..]) + {stack[k - 1]}
    ensures stack[..k][k - 1] == stack[k - 1] && stack[..k][..k - 1] == stack[..k - 1]
    ensures forall u :: u in stack[..k] <==> u in stack[..k - 1] || u == stack[k - 1]
  {
    assert stack[k - 1..] == [stack[k - 1]] + stack[k..];
    assert stack[..k] == stack[..k - 1] + [stack[k - 1]];
  }

  lemma StackSuffix(order: Numbers, stack: seq<Node>, onStack: set<Node>, k: nat)
    requires InOrder(order, stack) && k < |stack| && forall u :: u in onStack <==> u in stack
    ensures Elements(stack[k..]) == Above(order, onStack, stack[k])
    ensures forall u :: u in stack[..k] <==> u in onStack - Above(order, onStack, stack[k])
    ensures InOrder(order, stack[..k])
  {
    InOrderPrefix(order, stack, k);
    forall u ensures u in stack[k..] <==> u in Above(order, onStack, stack[k]) {
      if u in stack[k..] {
        var i :| 0 <= i < |stack[k..]| && stack[k..][i] == u;
        assert stack[k + i] == u && u in stack;
      }
      if u in Above(order, onStack, stack[k]) {
        var i :| 0 <= i < |stack| && stack[i] == u;
        assert stack[k..][i - k] == u;
      }
    }
    forall u ensures u in stack[..k] <==> u in onStack && u !in Above(order, onStack, stack[k]) {
      if u in stack[..k] {
        var i :| 0 <= i < k && stack[i] == u;
        assert u in stack;
      }
      if u in onStack && u !in Above(order, onStack, stack[k]) {
        var i :| 0 <= i < |stack| && stack[i] == u;
        assert stack[..k][i] == u;
      }
    }
  }

  /** The search invariant, the pending lists, and the bookkeeping facts: one
      number per discovered node, one pop per seen edge. */
  ghost predicate SearchOk(g: Graph, s: State, work: seq<Frame>, components: seq<set<Node>>, edgePops: nat) {
    && s.path == PathOf(work)
    && Inv(g, s)
    && WorkOk(g, work, s.seen)
    && components == Large(s.emitted)
    && s.counter == |s.order| && edgePops == |s.seen|
  }

  function TopFrame(work: seq<Frame>): Frame
    requires work != []
  {
    work[|work| - 1]
  }

  /** `pending.pop()` yields the last name, so neighbours come in descending order. */
  function Neighbour(work: seq<Frame>): Node
    requires work != [] && TopFrame(work).pending != []
  {
    TopFrame(work).pending[|TopFrame(work).pending| - 1]
  }

  /** The top frame without its last pending neighbour. */
  function Shortened(work: seq<Frame>): seq<Frame>
    requires work != [] && TopFrame(work).pending != []
  {
    var top := TopFrame(work);
    work[|work| - 1 := Frame(top.node, top.pending[..|top.pending| - 1])]
  }

  /** What one neighbour does to the search state. */
  ghost function Examined(s: State, neighbour: Node): State
    requires s.path != []
  {
    if neighbour !in s.order then Discover(s, neighbour) else Look(s, neighbour)
  }

  function ExaminedWork(g: Graph, order: Numbers, work: seq<Frame>, neighbour: Node): seq<Frame>
    requires work != [] && TopFrame(work).pending != []
  {
    if neighbour !in order then Shortened(work) + [Frame(neighbour, Sorted(Succ(g, neighbour)))] else Shortened(work)
  }

  lemma OtherFrames(g: Graph, work: seq<Frame>, order: Numbers, seen: set<Edge>, v: Node)
    requires work != [] && WorkOk(g, work, seen) && InOrder(order, PathOf(work))
    ensures forall i :: 0 <= i < |work| - 1 ==> FrameOk(g, work[i], seen + {(TopFrame(work).node, v)})
  {
    forall i | 0 <= i < |work| - 1 ensures FrameOk(g, work[i], seen + {(TopFrame(work).node, v)}) {
      assert At(order, PathOf(work)[i]) < At(order, PathOf(work)[|work| - 1]);
      assert FrameOk(g, work[i], seen);
    }
  }

  lemma ExamineWork(g: Graph, s: State, work: seq<Frame>)
    requires work != [] && TopFrame(work).pending != [] && s.path == PathOf(work)
    requires InOrder(s.order, s.path) && WorkOk(g, work, s.seen)
    requires var v := Neighbour(work);
      v !in s.order ==> Unmet(v, s.seen) && v != Top(s)
    ensures var v := Neighbour(work);
      && v in Succ(g, Top(s)) && (Top(s), v) !in s.seen
      && WorkOk(g, ExaminedWork(g, s.order, work, v), s.seen + {(Top(s), v)})
      && PathOf(ExaminedWork(g, s.order, work, v)) == s.path + if v !in s.order then [v] else []
  {
    var v := Neighbour(work);
    assert FrameOk(g, TopFrame(work), s.seen);
    ShorterFrame(g, TopFrame(work), s.seen);
    OtherFrames(g, work, s.order, s.seen, v);
    if v !in s.order { FreshFrame(g, v, s.seen + {(Top(s), v)}); }
  }

  lemma ExamineFacts(g: Graph, s: State, v: Node)
    requires Inv(g, s) && s.path != [] && v in Succ(g, Top(s))
    ensures Top(s) in s.order && Top(s) in s.low && s.low.Keys == s.order.Keys && s.onStack <= s.order.Keys
    ensures v !in s.order ==> Discoverable(g, s, v) && Unmet(v, s.seen)
    ensures InOrder(s.order, s.path)
  {
    assert Top(s) in s.path;
  }

  lemma ExamineKeeps(g: Graph, s: State, work: seq<Frame>, components: seq<set<Node>>, edgePops: nat)
    requires SearchOk(g, s, work, components, edgePops) && work != [] && TopFrame(work).pending != []
    ensures var v := Neighbour(work);
      && Top(s) in s.low && s.low.Keys == s.order.Keys && s.onStack <= s.order.Keys
      && SearchOk(g, Examined(s, v), ExaminedWork(g, s.order, work, v), components, edgePops + 1)
      && s.seen < Examined(s, v).seen
  {
    hide Inv, InOrder;
    var v := Neighbour(work);
    assert FrameOk(g, TopFrame(work), s.seen);
    ShorterFrame(g, TopFrame(work), s.seen);
    ExamineFacts(g, s, v);
    ExamineWork(g, s, work);
    if v !in s.order {
      DiscoverKeeps(g, s, v);
      CountNew(s.order, v, s.counter);
    } else {
      LookKeeps(g, s, v);
    }
  }

  lemma LeaveWork(g: Graph, s: State, work: seq<Frame>)
    requires s.path == PathOf(work) && WorkOk(g, work, s.seen) && work != [] && TopFrame(work).pending == []
    ensures Closable(g, s)
    ensures PathOf(work[..|work| - 1]) == s.path[..|s.path| - 1] && WorkOk(g, work[..|work| - 1], s.seen)
  {
    assert FrameOk(g, TopFrame(work), s.seen);
  }

  lemma LeaveFacts(g: Graph, s: State)
    requires Inv(g, s) && s.path != []
    ensures InOrder(s.order, s.stack) && Top(s) in s.stack
    ensures forall u :: u in s.onStack <==> u in s.stack
    ensures forall n :: n in s.path ==> n in s.low && n in s.order
    ensures At(s.low, Top(s)) <= At(s.order, Top(s)) && At(LowerParent(s), Top(s)) == At(s.low, Top(s))
  {
    assert Top(s) in s.path;
    TopNotBelow(s);
    assert |s.path| > 1 ==> s.path[|s.path| - 2] in s.path[..|s.path| - 1];
  }

  /** Only a component with several members is reported. */
  function Reported(components: seq<set<Node>>, component: set<Node>): seq<set<Node>> {
    if |component| > 1 then components + [component] else components
  }

  lemma SearchFacts(g: Graph, s: State, work: seq<Frame>, components: seq<set<Node>>, edgePops: nat)
    requires SearchOk(g, s, work, components, edgePops) && work != []
    ensures s.path == PathOf(work) && Top(s) == TopFrame(work).node
    ensures InOrder(s.order, s.stack) && Top(s) in s.stack && (forall u :: u in s.onStack <==> u in s.stack)
    ensures forall n :: n in s.path ==> n in s.low && n in s.order
    ensures Top(s) in s.low && Top(s) in s.order && Top(s) in LowerParent(s) && At(LowerParent(s), Top(s)) == At(s.low, Top(s))
    ensures At(s.low, Top(s)) <= At(s.order, Top(s))
    ensures components == Large(s.emitted)
  {
    hide Inv, InOrder;
    assert Top(s) in s.path;
    LeaveFacts(g, s);
  }

  lemma LeaveKeeps(g: Graph, s: State, work: seq<Frame>, components: seq<set<Node>>, edgePops: nat, stack: seq<Node>)
    requires SearchOk(g, s, work, components, edgePops) && work != [] && TopFrame(work).pending == []
    ensures At(s.low, Top(s)) < At(s.order, Top(s)) ==>
      SearchOk(g, Close(s), work[..|work| - 1], components, edgePops)
    ensures At(s.low, Top(s)) == At(s.order, Top(s)) && CutStack(s, stack) ==>
      var component := Above(s.order, s.onStack, Top(s));
      SearchOk(g, CloseRoot(s, stack), work[..|work| - 1], Reported(components, component), edgePops)
  {
    hide Inv, WorkOk, InOrder, Closable, CutStack, Above, Large, Reported;
    LeaveWork(g, s, work);
    if At(s.low, Top(s)) < At(s.order, Top(s)) {
      CloseKeeps(g, s);
    } else if At(s.low, Top(s)) == At(s.order, Top(s)) && CutStack(s, stack) {
      CloseRootKeeps(g, s, stack);
      LargeNext(s.emitted, Above(s.order, s.onStack, Top(s)));
    }
  }

  lemma LargeNext(emitted: seq<set<Node>>, component: set<Node>)
    ensures Large(emitted + [component]) == Reported(Large(emitted), component)
  {
    assert (emitted + [component])[..|emitted|] == emitted;
  }

  lemma UnmetUnseen(g: Graph, s: State, n: Node)
    requires Inv(g, s) && n !in s.order
    ensures Unmet(n, s.seen)
  {
  }

  lemma CountNew(order: Numbers, n: Node, number: nat)
    requires n !in order
    ensures |order[n := number]| == |order| + 1
  {
    assert order[n := number].Keys == order.Keys + {n};
    assert |order.Keys + {n}| == |order.Keys| + 1;
  }

  lemma BeginKeeps(g: Graph, s: State, root: Node, components: seq<set<Node>>, edgePops: nat)
    requires SearchOk(g, s, [], components, edgePops) && root in Nodes(g) && root !in s.order
    ensures SearchOk(g, Discover(s, root), [Frame(root, Sorted(Succ(g, root)))], components, edgePops)
  {
    hide Inv, FrameOk, Nodes, Large;
    assert s.path == [];
    UnmetUnseen(g, s, root);
    DiscoverKeeps(g, s, root);
    FreshFrame(g, root, s.seen);
    CountNew(s.order, root, s.counter);
    assert PathOf([Frame(root, Sorted(Succ(g, root)))]) == [root];
  }

  lemma NothingOpenNothingStacked(g: Graph, s: State)
    requires Inv(g, s) && s.path == []
    ensures s.stack == [] && s.onStack == {}
  {
    assert s.stack[..] == [] || s.stack[0] in s.stack;
    forall u ensures u !in s.onStack {
      assert u in s.onStack ==> ReachesOpen(g, s.order, s.path, u);
    }
  }

  lemma InitialInv(g: Graph, s: State)
    requires s == State(map[], map[], [], {}, 0, [], {}, [])
    ensures SearchOk(g, s, [], [], 0)
  {
    assert PathOf([]) == [];
  }

  lemma SeenAreEdges(g: Graph, s: State)
    requires Inv(g, s)
    ensures s.seen <= Edges(g)
  {
    forall e | e in s.seen ensures e in Edges(g) {
      assert (e.0, e.1) in s.seen;
      assert e.1 in Succ(g, e.0);
    }
  }

  /** The variables `find_cycles` shares with its nested `visit`. */
  class CycleFinder {
    const graph: Graph
    var order: Numbers
    var low: Numbers
    var onStack: set<Node>
    var stack: seq<Node>
    var components: seq<set<Node>>
    var counter: nat
    ghost var seen: set<Edge>
    ghost var emitted: seq<set<Node>>
    ghost var edgePops: nat

    constructor (graph: Graph)
      ensures this.graph == graph && Valid([]) && order == map[]
    {
      this.graph := graph;
      order, low, onStack, stack, components, counter := map[], map[], {}, [], [], 0;
      seen, emitted, edgePops := {}, [], 0;
      InitialInv(graph, State(map[], map[], [], {}, 0, [], {}, []));
      new;
      hide SearchOk;
      assert PathOf([]) == [];
    }

    ghost function Snapshot(work: seq<Frame>): State
      reads this
    {
      State(order, low, stack, onStack, counter, PathOf(work), seen, emitted)
    }

    ghost predicate Valid(work: seq<Frame>)
      reads this
    {
      SearchOk(graph, Snapshot(work), work, components, edgePops)
    }

    method PopComponent(node: Node) returns (component: set<Node>)
      requires InOrder(order, stack) && node in stack && forall u :: u in onStack <==> u in stack
      modifies this`stack, this`onStack
      ensures component == Above(order, old(onStack), node)
      ensures onStack == old(onStack) - component
      ensures InOrder(order, stack) && forall u :: u in stack <==> u in onStack
    {
      hide InOrder, Above, Elements;
      component := {};
      ghost var was := stack;
      NothingPopped(was);
      while true
        invariant |stack| <= |was| && stack == was[..|stack|]
        invariant node in stack
        invariant component == Elements(was[|stack|..])
        invariant onStack == old(onStack) - component
        decreases |stack|
      {
        PopOne(was, |stack|);
        var member := stack[|stack| - 1];
        stack := stack[..|stack| - 1];
        onStack := onStack - {member};
        component := component + {member};
        if member == node { break; }
      }
      StackSuffix(order, was, old(onStack), |stack|);
    }

    /** Number and stack a node met for the first time. */
    method Enter(n: Node)
      modifies this`order, this`low, this`counter, this`stack, this`onStack
      ensures order == old(order)[n := old(counter)] && low == old(low)[n := old(counter)]
      ensures counter == old(counter) + 1
      ensures stack == old(stack) + [n] && onStack == old(onStack) + {n}
    {
      order, low := order[n := counter], low[n := counter];
      counter := counter + 1;
      stack := stack + [n];
      onStack := onStack + {n};
    }

    /** Take one neighbour off the top frame's pending list: enter it if it is
        new, let it lower `low` of the top node if it is stacked. */
    method TakeNeighbour(work: seq<Frame>) returns (work': seq<Frame>)
      requires work != [] && TopFrame(work).pending != []
      requires TopFrame(work).node in low && low.Keys == order.Keys && onStack <= order.Keys
      modifies this`order, this`low, this`counter, this`stack, this`onStack, this`seen, this`edgePops
      ensures edgePops == old(edgePops) + 1
      ensures work' == ExaminedWork(graph, old(order), work, Neighbour(work))
      ensures Snapshot(work') == Examined(old(Snapshot(work)), Neighbour(work))
    {
      var node, neighbour := TopFrame(work).node, Neighbour(work);
      work' := Shortened(work);
      assert PathOf(Shortened(work)) == PathOf(work);
      if neighbour !in order {
        Enter(neighbour);
        work' := work' + [Frame(neighbour, Sorted(Succ(graph, neighbour)))];
        assert PathOf(work') == PathOf(work) + [neighbour];
      } else if neighbour in onStack {
        low := low[node := Min(low[node], order[neighbour])];
      }
      seen, edgePops := seen + {(node, neighbour)}, edgePops + 1;
    }

    method Examine(work: seq<Frame>) returns (work': seq<Frame>)
      requires Valid(work) && work != [] && TopFrame(work).pending != []
      modifies this
      ensures Valid(work')
      ensures old(order.Keys) <= order.Keys && old(seen) < seen
    {
      hide SearchOk;
      ghost var s := Snapshot(work);
      ExamineKeeps(graph, s, work, components, edgePops);
      work' := TakeNeighbour(work);
    }

    /** Pop the component of a root, and report it. */
    method Emit(node: Node, ghost s: State)
      requires s.path != [] && node == Top(s) && order == s.order && onStack == s.onStack
      requires InOrder(order, stack) && node in stack && forall u :: u in onStack <==> u in stack
      modifies this`stack, this`onStack, this`emitted, this`components
      ensures CutStack(s, stack)
      ensures var component := Above(s.order, s.onStack, node);
        && onStack == old(onStack) - component && emitted == old(emitted) + [component]
        && components == Reported(old(components), component)
    {
      hide InOrder, Above;
      var component := PopComponent(node);
      emitted := emitted + [component];
      if |component| > 1 {
        components := components + [component];
      }
    }

    /** Pop the top frame and pass its `low` to the frame below. */
    method PopFrame(work: seq<Frame>) returns (work': seq<Frame>)
      requires work != [] && forall n :: n in PathOf(work) ==> n in low
      modifies this`low
      ensures work' == work[..|work| - 1] && PathOf(work') == PathOf(work)[..|work| - 1]
      ensures low == LowerParent(old(Snapshot(work)))
    {
      var node := TopFrame(work).node;
      assert node in PathOf(work);
      work' := work[..|work| - 1];
      if work' != [] {
        var parent := TopFrame(work').node;
        assert parent in PathOf(work);
        low := low[parent := Min(low[parent], low[node])];
      }
    }

    /** Pop the top frame, and emit its component if it is a root. */
    method CloseTop(work: seq<Frame>) returns (work': seq<Frame>)
      requires work != [] && (forall n :: n in PathOf(work) ==> n in low && n in order)
      requires InOrder(order, stack) && TopFrame(work).node in stack && forall u :: u in onStack <==> u in stack
      requires low[TopFrame(work).node] == At(LowerParent(Snapshot(work)), TopFrame(work).node)
      modifies this`low, this`stack, this`onStack, this`emitted, this`components
      ensures work' == work[..|work| - 1]
      ensures var s := old(Snapshot(work));
        if At(s.low, Top(s)) == At(s.order, Top(s)) then
          CutStack(s, stack) && Snapshot(work') == CloseRoot(s, stack)
          && components == Reported(old(components), Above(s.order, s.onStack, Top(s)))
        else
          Snapshot(work') == Close(s) && components == old(components)
    {
      hide InOrder, CutStack, Above, Reported;
      ghost var s := Snapshot(work);
      var node := TopFrame(work).node;
      assert node in PathOf(work);
      work' := PopFrame(work);
      if low[node] == order[node] {
        Emit(node, s);
      }
    }

    /** The top frame has nothing pending: its node is finished. */
    method Leave(work: seq<Frame>) returns (work': seq<Frame>)
      requires Valid(work) && work != [] && TopFrame(work).pending == []
      modifies this
      ensures Valid(work') && work' == work[..|work| - 1]
      ensures order == old(order) && seen == old(seen)
    {
      ghost var s := Snapshot(work);
      SearchFacts(graph, s, work, components, edgePops);
      hide SearchOk, InOrder, CutStack, Above, Reported, LowerParent;
      work' := CloseTop(work);
      LeaveKeeps(graph, s, work, old(components), edgePops, stack);
    }

    method Visit(root: Node)
      requires Valid([]) && root in Nodes(graph) && root !in order
      modifies this
      ensures Valid([]) && root in order && old(order.Keys) <= order.Keys
    {
      hide SearchOk;
      ghost var s := Snapshot([]);
      BeginKeeps(graph, s, root, components, edgePops);
      var work := [Frame(root, Sorted(Succ(graph, root)))];
      Enter(root);
      assert PathOf(work) == [root];
      assert Snapshot(work) == Discover(s, root);
      while work != []
        invariant Valid(work) && root in order && old(order.Keys) <= order.Keys
        decreases Edges(graph) - seen, |work|
      {
        ghost var before := seen;
        if TopFrame(work).pending != [] {
          work := Examine(work);
          ValidSeen(work);
          assert Edges(graph) - seen < Edges(graph) - before;
        } else {
          work := Leave(work);
        }
      }
    }

    lemma ValidSeen(work: seq<Frame>)
      requires Valid(work)
      ensures seen <= Edges(graph)
    {
      SeenAreEdges(graph, Snapshot(work));
    }
  }

  /** What a finished search knows about the whole graph. */
  ghost predicate AllComponents(g: Graph, emitted: seq<set<Node>>) {
    && (forall c :: c in emitted <==> IsScc(g, c) && c <= Nodes(g))
    && (forall i, j :: 0 <= i < j < |emitted| ==> emitted[i] !! emitted[j])
    && ReverseTopological(g, emitted)
  }

  lemma AllDiscovered(g: Graph, s: State)
    requires Inv(g, s) && s.path == [] && g.Keys <= s.order.Keys
    ensures s.order.Keys == Nodes(g) && s.seen == Edges(g) && s.onStack == {}
    ensures EmittedFinished(g, s.emitted, Nodes(g))
  {
    hide Stacked, OpenReaches, StackedReachOpen, LowWitnessed, LowBounds, EmittedFinished, LowAtMost, EdgesSeen;
    NothingOpenNothingStacked(g, s);
    EverythingSeen(g, s.order, s.path, s.seen);
    SeenAreEdges(g, s);
    assert s.order.Keys - s.onStack == Nodes(g);
  }

  lemma EverythingSeen(g: Graph, order: Numbers, path: seq<Node>, seen: set<Edge>)
    requires EdgesSeen(g, order, path, seen) && path == [] && g.Keys <= order.Keys <= Nodes(g)
    ensures order.Keys == Nodes(g) && Edges(g) <= seen
  {
    forall u, v | u in g && v in g[u] ensures v in order && (u, v) in seen {
      assert v in Succ(g, u);
      assert (u, v) in seen;
    }
  }

  lemma EmittedAreAll(g: Graph, emitted: seq<set<Node>>)
    requires EmittedFinished(g, emitted, Nodes(g))
    ensures AllComponents(g, emitted)
  {
    forall c ensures c in emitted <==> IsScc(g, c) && c <= Nodes(g) {
      if c in emitted {
        var i :| 0 <= i < |emitted| && emitted[i] == c;
        forall u | u in c ensures u in Nodes(g) { assert Emitted(emitted, u); }
      }
      if IsScc(g, c) && c <= Nodes(g) {
        var u :| u in c;
        assert Emitted(emitted, u);
        var i :| 0 <= i < |emitted| && u in emitted[i];
        SccsEqualOrDisjoint(g, c, emitted[i], u);
      }
    }
  }

  /** A component with two members lies inside the graph. */
  lemma LargeComponentInGraph(g: Graph, c: set<Node>)
    requires IsScc(g, c) && |c| > 1
    ensures c <= Nodes(g)
  {
    forall u | u in c ensures u in Nodes(g) {
      assert |c - {u}| == |c| - 1;
      var v :| v in c - {u};
      var p :| PathBetween(g, p, u, v);
      assert Hop(g, p, 0);
    }
  }

  lemma LargeDistinct(emitted: seq<set<Node>>)
    requires forall i, j :: 0 <= i < j < |emitted| ==> emitted[i] !! emitted[j]
    ensures forall i, j :: 0 <= i < j < |Large(emitted)| ==> Large(emitted)[i] != Large(emitted)[j]
  {
    if emitted != [] {
      var k := |emitted| - 1;
      LargeDistinct(emitted[..k]);
      LargeMembers(emitted[..k]);
      var last := emitted[k];
      if |last| > 1 {
        forall i | 0 <= i < |Large(emitted[..k])| ensures Large(emitted[..k])[i] != last {
          assert Large(emitted[..k])[i] in Large(emitted[..k]);
          var u :| u in last;
        }
      }
    }
  }

  /** What `find_cycles` promises: every component with more than one member,
      no other set, each once, in the order of the sorted member lists. */
  ghost predicate CycleReport(g: Graph, cycles: seq<set<Node>>) {
    && (forall c :: c in cycles <==> IsScc(g, c) && |c| > 1)
    && Increasing(ByMembers, cycles)
  }

  lemma ReportFromSearch(g: Graph, s: State, components: seq<set<Node>>, edgePops: nat)
    requires SearchOk(g, s, [], components, edgePops) && g.Keys <= s.order.Keys
    ensures CycleReport(g, SortComponents(components)) && AllComponents(g, s.emitted)
    ensures s.counter == |Nodes(g)| && edgePops == |Edges(g)|
  {
    hide Inv, IsScc;
    assert s.path == [];
    AllDiscovered(g, s);
    EmittedAreAll(g, s.emitted);
    LargeMembers(s.emitted);
    LargeDistinct(s.emitted);
    SortComponentsSorts(components);
    forall c | IsScc(g, c) && |c| > 1 ensures c in s.emitted { LargeComponentInGraph(g, c); }
    assert |s.order| == |s.order.Keys|;
  }

  method FindCycles(graph: Graph)
      returns (cycles: seq<set<Node>>, ghost emitted: seq<set<Node>>, ghost nodePushes: nat, ghost edgePops: nat)
    ensures CycleReport(graph, cycles)
    ensures AllComponents(graph, emitted)
    ensures nodePushes == |Nodes(graph)| && edgePops == |Edges(graph)|
  {
    hide SearchOk, AllComponents, CycleReport;
    var finder := new CycleFinder(graph);
    var names := Sorted(graph.Keys);
    for i := 0 to |names|
      invariant finder.graph == graph && finder.Valid([])
      invariant forall j :: 0 <= j < i ==> names[j] in finder.order
      invariant fresh(finder)
    {
      assert names[i] in names;
      if names[i] !in finder.order {
        finder.Visit(names[i]);
      }
    }
    assert graph.Keys <= finder.order.Keys by {
      forall u | u in graph.Keys ensures u in finder.order { assert u in names; }
    }
    ReportFromSearch(graph, finder.Snapshot([]), finder.components, finder.edgePops);
    cycles := SortComponents(finder.components);
    emitted, nodePushes, edgePops := finder.emitted, finder.counter, finder.edgePops;
  }

  /** The report is a function of the graph: no iteration order shows in it. */
  lemma ReportUnique(g: Graph, a: seq<set<Node>>, b: seq<set<Node>>)
    requires CycleReport(g, a) && CycleReport(g, b)
    ensures a == b
  {
    ByMembersStrictTotal();
    SortedListingUnique(ByMembers, a, b, set c | c in a);
  }

  lemma ReportEmptyIffAcyclic(g: Graph, cycles: seq<set<Node>>)
    requires CycleReport(g, cycles)
    ensures cycles == [] <==> Acyclic(WithoutSelfEdges(g))
  {
    AcyclicIffNoMutualPair(g);
    if cycles != [] {
      assert cycles[0] in cycles;
      var u :| u in cycles[0];
      assert |cycles[0] - {u}| == |cycles[0]| - 1;
      var v :| v in cycles[0] - {u};
      assert Mutual(g, u, v);
    }
    if u, v :| Mutual(g, u, v) && u != v {
      MutualPairReported(g, cycles, u, v);
    }
  }

  lemma MutualPairReported(g: Graph, cycles: seq<set<Node>>, u: Node, v: Node)
    requires CycleReport(g, cycles) && Mutual(g, u, v) && u != v
    ensures exists c :: c in cycles && u in c && v in c
  {
    var c := set w | w in Nodes(g) && Mutual(g, u, w);
    MutualClass(g, u, v, c);
    assert {u, v} <= c;
    assert |{u, v}| == 2;
    SubsetSize({u, v}, c);
  }

  lemma SubsetSize(a: set<Node>, b: set<Node>)
    requires a <= b
    ensures |a| <= |b|
  {
    assert b == a + (b - a);
  }

  lemma MutualClass(g: Graph, u: Node, v: Node, c: set<Node>)
    requires Mutual(g, u, v) && u != v && c == set w | w in Nodes(g) && Mutual(g, u, w)
    ensures IsScc(g, c) && u in c && v in c
  {
    forall w | Mutual(g, u, w) ensures w in Nodes(g) {
      if w == u { ReachInGraph(g, u, v); } else { ReachInGraph(g, w, u); }
    }
    ReachRefl(g, u);
    forall a, b | a in c && b in c ensures Reach(g, a, b) { ReachTrans(g, a, u, b); }
    forall a, b | a in c && Mutual(g, a, b) ensures b in c {
      ReachTrans(g, u, a, b);
      ReachTrans(g, b, a, u);
    }
  }

  lemma ReachInGraph(g: Graph, u: Node, v: Node)
    requires Reach(g, u, v) && u != v
    ensures u in Nodes(g)
  {
    var p :| PathBetween(g, p, u, v);
    assert Hop(g, p, 0);
  }

  /** When nothing is reported, nodes leave the stack one at a time and every
      edge between distinct nodes leads to one that left earlier. */
  lemma AcyclicPopOrder(g: Graph, emitted: seq<set<Node>>, i: nat, u: Node, v: Node)
    requires CycleReport(g, []) && AllComponents(g, emitted)
    requires i < |emitted| && u in emitted[i] && v in Succ(g, u) && v != u
    ensures emitted[i] == {u} && exists j :: 0 <= j < i && emitted[j] == {v}
  {
    Singleton(g, emitted, i, u);
    assert Emitted(emitted[..i + 1], v);
    var j :| 0 <= j < |emitted[..i + 1]| && v in emitted[..i + 1][j];
    Singleton(g, emitted, j, v);
  }

  lemma Singleton(g: Graph, emitted: seq<set<Node>>, i: nat, u: Node)
    requires CycleReport(g, []) && AllComponents(g, emitted) && i < |emitted| && u in emitted[i]
    ensures emitted[i] == {u}
  {
    assert emitted[i] in emitted;
    assert emitted[i] !in [];
    assert |emitted[i] - {u}| == |emitted[i]| - 1;
  }
}
