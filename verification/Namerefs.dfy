/** scripts/check_container_image_pins.py: shell namerefs (`declare -n a=b`) and
    the in-place compression of their chains. */
module Namerefs {

  type References = map<string, string>

  /** Up to k hops along the chain of x, stopping where it leaves the map. */
  function Follow(m: References, x: string, k: nat): string
    decreases k
  {
    if k == 0 || x !in m then x else Follow(m, m[x], k - 1)
  }

  /** The chain of x leaves the map at y. */
  ghost predicate EndsAt(m: References, x: string, y: string) {
    y !in m && exists k: nat :: Follow(m, x, k) == y
  }

  ghost predicate Ends(m: References, x: string) {
    exists y :: EndsAt(m, x, y)
  }

  ghost predicate SameSinks(m: References, m': References) {
    m.Keys == m'.Keys && forall x, y :: EndsAt(m, x, y) <==> EndsAt(m', x, y)
  }

  lemma {:induction false} FollowSteps(m: References, x: string, i: nat, j: nat)
    ensures Follow(m, x, i + j) == Follow(m, Follow(m, x, i), j)
    decreases i
  {
    if i > 0 && x in m { FollowSteps(m, m[x], i - 1, j); }
  }

  lemma EndsAtSink(m: References, x: string)
    requires x !in m
    ensures forall y :: EndsAt(m, x, y) <==> y == x
  {
    assert Follow(m, x, 0) == x;
    assert forall k :: Follow(m, x, k) == x;
  }

  lemma EndsAtNext(m: References, x: string, y: string)
    requires x in m
    ensures EndsAt(m, x, y) <==> EndsAt(m, m[x], y)
  {
    if EndsAt(m, x, y) {
      var k: nat :| Follow(m, x, k) == y;
      assert k > 0 && Follow(m, m[x], k - 1) == y;
    }
    if EndsAt(m, m[x], y) {
      var k: nat :| Follow(m, m[x], k) == y;
      assert Follow(m, x, k + 1) == y;
    }
  }

  lemma {:induction false} EndsAtAlong(m: References, x: string, k: nat, y: string)
    ensures EndsAt(m, x, y) <==> EndsAt(m, Follow(m, x, k), y)
    decreases k
  {
    if k > 0 && x in m {
      EndsAtNext(m, x, y);
      EndsAtAlong(m, m[x], k - 1, y);
    }
  }

  lemma SinkUnique(m: References, x: string, y: string, z: string)
    requires EndsAt(m, x, y) && EndsAt(m, x, z)
    ensures y == z
  {
    var k: nat :| Follow(m, x, k) == y;
    EndsAtAlong(m, x, k, z);
    EndsAtSink(m, y);
  }

  /** A set of aliases that only lead to each other leads nowhere. */
  lemma {:induction false} ClosedStays(m: References, c: set<string>, x: string, k: nat)
    requires c <= m.Keys && x in c && forall v :: v in c ==> m[v] in c
    ensures Follow(m, x, k) in c
    decreases k
  {
    if k > 0 { ClosedStays(m, c, m[x], k - 1); }
  }

  lemma ClosedNeverEnds(m: References, c: set<string>, x: string)
    requires c <= m.Keys && x in c && forall v :: v in c ==> m[v] in c
    ensures !Ends(m, x)
  {
    forall k: nat ensures Follow(m, x, k) in c { ClosedStays(m, c, x, k); }
  }

  // ---- Redirecting one alias ----------------------------------------------

  /** A later node of the alias's chain that is its sink, or any later node when there is none. */
  ghost predicate Shortcut(m: References, alias: string, target: string) {
    alias in m && (exists j: nat :: Follow(m, m[alias], j) == target) && (target in m ==> !Ends(m, alias))
  }

  lemma ShortcutSameSinks(m: References, alias: string, target: string)
    requires Shortcut(m, alias, target)
    ensures SameSinks(m, m[alias := target])
  {
    var m' := m[alias := target];
    forall x, y ensures EndsAt(m, x, y) <==> EndsAt(m', x, y) {
      if EndsAt(m, x, y) {
        var k: nat :| Follow(m, x, k) == y;
        SinkKept(m, alias, target, x, y, k);
      }
      if EndsAt(m', x, y) {
        var k: nat :| Follow(m', x, k) == y;
        SinkNotInvented(m, alias, target, x, y, k);
      }
    }
  }

  lemma {:induction false} SinkKept(m: References, alias: string, target: string, x: string, y: string, k: nat)
    requires Shortcut(m, alias, target) && y !in m && Follow(m, x, k) == y
    ensures EndsAt(m[alias := target], x, y)
    decreases k
  {
    var m' := m[alias := target];
    if x !in m {
      EndsAtSink(m', x);
    } else if x == alias {
      assert EndsAt(m, alias, y);
      EndsAtNext(m, alias, y);
      var j: nat :| Follow(m, m[alias], j) == target;
      EndsAtAlong(m, m[alias], j, y);
      EndsAtSink(m, target);
      EndsAtSink(m', target);
      EndsAtNext(m', alias, y);
    } else {
      SinkKept(m, alias, target, m[x], y, k - 1);
      EndsAtNext(m', x, y);
    }
  }

  lemma {:induction false} SinkNotInvented(m: References, alias: string, target: string, x: string, y: string, k: nat)
    requires Shortcut(m, alias, target) && y !in m && Follow(m[alias := target], x, k) == y
    ensures EndsAt(m, x, y)
    decreases k
  {
    var m' := m[alias := target];
    if x !in m {
      EndsAtSink(m, x);
    } else {
      SinkNotInvented(m, alias, target, m'[x], y, k - 1);
      if x == alias {
        var j: nat :| Follow(m, m[alias], j) == target;
        EndsAtAlong(m, m[alias], j, y);
      }
      EndsAtNext(m, x, y);
    }
  }

  // ---- Compression as written ---------------------------------------------

  method FollowInPlace(references: References, alias: string) returns (target: string)
    requires alias in references
    ensures Shortcut(references, alias, target)
  {
    target := references[alias];
    var visited := {alias};
    ghost var hops: nat := 0;
    while target in references && target !in visited
      invariant alias in visited && visited <= references.Keys
      invariant forall v :: v in visited ==> references[v] in visited + {target}
      invariant Follow(references, references[alias], hops) == target
      decreases references.Keys - visited
    {
      FollowSteps(references, references[alias], hops, 1);
      visited := visited + {target};
      target := references[target];
      hops := hops + 1;
    }
    if target in references {
      ClosedNeverEnds(references, visited, alias);
    }
  }

  /** Entries are rewritten one by one, each by following entries that may
      already be rewritten. Whatever the iteration order, an alias whose chain
      leaves the original map ends at that chain's sink, and no other alias does. */
  method CompressNamerefs(order: seq<string>, references: References) returns (compressed: References)
    requires forall x :: x in order <==> x in references
    ensures compressed.Keys == references.Keys
    ensures forall x, y :: x in references && EndsAt(references, x, y) ==> compressed[x] == y
    ensures forall x :: x in references ==> (compressed[x] !in references <==> Ends(references, x))
  {
    compressed := references;
    for i := 0 to |order|
      invariant SameSinks(references, compressed)
      invariant forall j :: 0 <= j < i ==>
        (compressed[order[j]] in references ==> !Ends(references, order[j]))
    {
      var alias := order[i];
      assert alias in order;
      var target := FollowInPlace(compressed, alias);
      ShortcutSameSinks(compressed, alias, target);
      assert Ends(references, alias) ==> Ends(compressed, alias);
      compressed := compressed[alias := target];
    }
    forall x | x in references
      ensures compressed[x] in references ==> !Ends(references, x)
      ensures compressed[x] !in references ==> EndsAt(references, x, compressed[x])
    {
      var j :| 0 <= j < |order| && order[j] == x;
      if compressed[x] !in references {
        EndsAtSink(compressed, compressed[x]);
        EndsAtNext(compressed, x, compressed[x]);
      }
    }
    forall x, y | x in references && EndsAt(references, x, y) ensures compressed[x] == y {
      assert Ends(references, x);
      SinkUnique(references, x, y, compressed[x]);
    }
  }
}
