/** Directed graphs over module names: reachability, strongly connected
    components and acyclicity, independent of any algorithm. */
module Graphs {

  type Node = string
  type Graph = map<Node, set<Node>>

  /** A name that is not a key has no successors, as in `graph.get(name, frozenset())`. */
  function Succ(g: Graph, v: Node): set<Node> {
    if v in g then g[v] else {}
  }

  function Nodes(g: Graph): set<Node> {
    g.Keys + set u, v | u in g && v in g[u] :: v
  }

  ghost predicate Hop(g: Graph, p: seq<Node>, i: int) {
    0 <= i && i + 1 < |p| && p[i + 1] in Succ(g, p[i])
  }

  ghost predicate IsPath(g: Graph, p: seq<Node>) {
    |p| > 0 && forall i :: 0 <= i < |p| - 1 ==> Hop(g, p, i)
  }

  ghost predicate PathBetween(g: Graph, p: seq<Node>, u: Node, v: Node) {
    IsPath(g, p) && p[0] == u && p[|p| - 1] == v
  }

  ghost predicate Reach(g: Graph, u: Node, v: Node) {
    exists p :: PathBetween(g, p, u, v)
  }

  ghost predicate Mutual(g: Graph, u: Node, v: Node) {
    Reach(g, u, v) && Reach(g, v, u)
  }

  /** A strongly connected component: non-empty, mutually reachable, maximal. */
  ghost predicate IsScc(g: Graph, c: set<Node>) {
    && c != {}
    && (forall u, v :: u in c && v in c ==> Reach(g, u, v))
    && (forall u, v :: u in c && Mutual(g, u, v) ==> v in c)
  }

  ghost predicate Closed(g: Graph, c: set<Node>) {
    forall u, v :: u in c && v in Succ(g, u) ==> v in c
  }

  lemma ReachRefl(g: Graph, u: Node)
    ensures Reach(g, u, u)
  {
    assert PathBetween(g, [u], u, u);
  }

  lemma ReachEdge(g: Graph, u: Node, v: Node)
    requires v in Succ(g, u)
    ensures Reach(g, u, v)
  {
    assert Hop(g, [u, v], 0);
    assert PathBetween(g, [u, v], u, v);
  }

  lemma JoinedPath(g: Graph, p: seq<Node>, q: seq<Node>)
    requires IsPath(g, p) && IsPath(g, q) && p[|p| - 1] == q[0]
    ensures IsPath(g, p + q[1..])
  {
    var r := p + q[1..];
    forall i | 0 <= i < |r| - 1 ensures Hop(g, r, i) {
      if i < |p| - 1 {
        assert Hop(g, p, i);
      } else {
        assert Hop(g, q, i - |p| + 1);
      }
    }
  }

  lemma ReachTrans(g: Graph, u: Node, v: Node, w: Node)
    requires Reach(g, u, v) && Reach(g, v, w)
    ensures Reach(g, u, w)
  {
    var p :| PathBetween(g, p, u, v);
    var q :| PathBetween(g, q, v, w);
    var r := p + q[1..];
    JoinedPath(g, p, q);
    assert PathBetween(g, r, u, w);
  }

  /** Nothing outside a successor-closed set is reachable from inside it. */
  lemma ReachStaysInClosed(g: Graph, c: set<Node>, u: Node, v: Node)
    requires Closed(g, c) && u in c && Reach(g, u, v)
    ensures v in c
  {
    var p :| PathBetween(g, p, u, v);
    PathStaysInClosed(g, c, p, |p| - 1);
  }

  lemma {:induction false} PathStaysInClosed(g: Graph, c: set<Node>, p: seq<Node>, k: nat)
    requires Closed(g, c) && IsPath(g, p) && p[0] in c && k < |p|
    ensures p[k] in c
  {
    if k > 0 {
      PathStaysInClosed(g, c, p, k - 1);
      assert Hop(g, p, k - 1);
    }
  }

  lemma SccsEqualOrDisjoint(g: Graph, c: set<Node>, d: set<Node>, u: Node)
    requires IsScc(g, c) && IsScc(g, d) && u in c && u in d
    ensures c == d
  {
    forall v ensures v in c <==> v in d {
      if v in c { assert Mutual(g, u, v); }
      if v in d { assert Mutual(g, u, v); }
    }
  }

  /** A closed walk of at least one edge. */
  ghost predicate IsCycle(g: Graph, p: seq<Node>) {
    IsPath(g, p) && |p| >= 2 && p[0] == p[|p| - 1]
  }

  ghost predicate Acyclic(g: Graph) {
    !exists p :: IsCycle(g, p)
  }

  function WithoutSelfEdges(g: Graph): Graph {
    map u | u in g :: g[u] - {u}
  }

  /** Dropping self-edges does not change which distinct names reach each other. */
  lemma {:induction false} PathWithoutSelfEdges(g: Graph, p: seq<Node>, u: Node, v: Node)
    requires PathBetween(g, p, u, v)
    ensures Reach(WithoutSelfEdges(g), u, v)
    decreases |p|
  {
    var h := WithoutSelfEdges(g);
    if |p| == 1 {
      ReachRefl(h, u);
    } else {
      var w := p[|p| - 2];
      var q := p[..|p| - 1];
      assert forall i :: Hop(g, p, i) && i < |q| - 1 ==> Hop(g, q, i);
      assert PathBetween(g, q, u, w);
      PathWithoutSelfEdges(g, q, u, w);
      assert Hop(g, p, |p| - 2);
      if w != v {
        ReachEdge(h, w, v);
        ReachTrans(h, u, w, v);
      }
    }
  }

  lemma PathIsInLargerGraph(g: Graph, p: seq<Node>)
    requires IsPath(WithoutSelfEdges(g), p)
    ensures IsPath(g, p)
  {
    forall i | 0 <= i < |p| - 1 ensures Hop(g, p, i) {
      assert Hop(WithoutSelfEdges(g), p, i);
    }
  }

  /** Acyclicity of the graph without self-edges means no two distinct names
      reach each other. */
  lemma AcyclicIffNoMutualPair(g: Graph)
    ensures Acyclic(WithoutSelfEdges(g)) <==> (forall u, v :: Mutual(g, u, v) ==> u == v)
  {
    var h := WithoutSelfEdges(g);
    if Acyclic(h) {
      forall u, v | Mutual(g, u, v) ensures u == v {
        if u != v {
          var p :| PathBetween(g, p, u, v);
          var q :| PathBetween(g, q, v, u);
          PathWithoutSelfEdges(g, p, u, v);
          PathWithoutSelfEdges(g, q, v, u);
          MutualPairGivesCycle(h, u, v);
          assert false;
        }
      }
    }
    if forall u, v :: Mutual(g, u, v) ==> u == v {
      forall p ensures !IsCycle(h, p) {
        if IsCycle(h, p) {
          PathIsInLargerGraph(g, p);
          assert Hop(h, p, 0);
          ReachEdge(g, p[0], p[1]);
          var q := p[1..];
          forall i | 0 <= i < |q| - 1 ensures Hop(g, q, i) { assert Hop(g, p, i + 1); }
          assert PathBetween(g, q, p[1], p[0]);
          assert Mutual(g, p[0], p[1]);
          assert false;
        }
      }
    }
  }

  lemma MutualPairGivesCycle(g: Graph, u: Node, v: Node)
    requires u != v && Mutual(g, u, v)
    ensures !Acyclic(g)
  {
    var p :| PathBetween(g, p, u, v);
    var q :| PathBetween(g, q, v, u);
    JoinedPath(g, p, q);
    assert IsCycle(g, p + q[1..]);
  }
}
