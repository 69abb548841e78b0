/** scripts/check_container_image_pins.py: joining what is known about Docker
    wrapper functions, and layers of such knowledge by call depth. */
module WrapperSpecs {
  import opened Wrappers

  /** Payload templates stand for expressions and are told apart by their dump. */
  datatype Spec = Spec(
    positional: seq<string>,
    keywordOnly: set<string>,
    vararg: Option<string>,
    kwarg: Option<string>,
    payload: set<string>,
    dangerousDefaults: set<string>,
    alwaysDangerous: bool,
    kwargKeys: set<string>,
    kwargUnbounded: bool,
    templates: seq<string>)

  /** The templates of b whose dump does not occur in a. */
  function NewTemplates(b: seq<string>, a: seq<string>): seq<string> {
    if b == [] then [] else
      NewTemplates(b[..|b| - 1], a) + if b[|b| - 1] in a then [] else [b[|b| - 1]]
  }

  function Either(a: Option<string>, b: Option<string>): Option<string> {
    if a.Some? then a else b
  }

  function Join(a: Spec, b: Spec): Spec {
    Spec(a.positional, a.keywordOnly + b.keywordOnly, Either(a.vararg, b.vararg), Either(a.kwarg, b.kwarg),
         a.payload + b.payload, a.dangerousDefaults + b.dangerousDefaults, a.alwaysDangerous || b.alwaysDangerous,
         a.kwargKeys + b.kwargKeys, a.kwargUnbounded || b.kwargUnbounded, a.templates + NewTemplates(b.templates, a.templates))
  }

  function Merge(current: Option<Spec>, candidate: Option<Spec>): Option<Spec> {
    if current.None? then candidate else if candidate.None? then current else Some(Join(current.value, candidate.value))
  }

  // ---- The merge is an idempotent monoid ----------------------------------

  lemma {:induction false} NewTemplatesMembers(b: seq<string>, a: seq<string>)
    ensures forall t :: t in NewTemplates(b, a) <==> t in b && t !in a
  {
    if b != [] {
      NewTemplatesMembers(b[..|b| - 1], a);
      assert b == b[..|b| - 1] + [b[|b| - 1]];
    }
  }

  lemma {:induction false} NewTemplatesNone(b: seq<string>, a: seq<string>)
    requires forall t :: t in b ==> t in a
    ensures NewTemplates(b, a) == []
  {
    if b != [] {
      assert b[|b| - 1] in b;
      NewTemplatesNone(b[..|b| - 1], a);
    }
  }

  lemma {:induction false} NewTemplatesConcat(b: seq<string>, c: seq<string>, a: seq<string>)
    ensures NewTemplates(b + c, a) == NewTemplates(b, a) + NewTemplates(c, a)
  {
    if c == [] {
      assert b + c == b;
    } else {
      assert (b + c)[..|b + c| - 1] == b + c[..|c| - 1];
      NewTemplatesConcat(b, c[..|c| - 1], a);
    }
  }

  lemma {:induction false} NewTemplatesTwice(c: seq<string>, b: seq<string>, a: seq<string>)
    ensures NewTemplates(NewTemplates(c, b), a) == NewTemplates(c, a + NewTemplates(b, a))
  {
    if c != [] {
      var rest, last := c[..|c| - 1], c[|c| - 1];
      NewTemplatesTwice(rest, b, a);
      NewTemplatesMembers(b, a);
      NewTemplatesConcat(NewTemplates(rest, b), if last in b then [] else [last], a);
      assert [last][..0] == [];
      assert last in a + NewTemplates(b, a) <==> last in a || last in b;
    }
  }

  lemma UnionLaws(a: set<string>, b: set<string>, c: set<string>)
    ensures (a + b) + c == a + (b + c) && a + a == a && (a + b) + a == a + b && (a + b) + b == a + b
  {
  }

  lemma JoinAssociative(a: Spec, b: Spec, c: Spec)
    ensures Join(Join(a, b), c) == Join(a, Join(b, c))
  {
    hide NewTemplates;
    NewTemplatesConcat(b.templates, NewTemplates(c.templates, b.templates), a.templates);
    NewTemplatesTwice(c.templates, b.templates, a.templates);
    UnionLaws(a.keywordOnly, b.keywordOnly, c.keywordOnly);
    UnionLaws(a.payload, b.payload, c.payload);
    UnionLaws(a.dangerousDefaults, b.dangerousDefaults, c.dangerousDefaults);
    UnionLaws(a.kwargKeys, b.kwargKeys, c.kwargKeys);
  }

  lemma JoinAbsorbs(a: Spec, b: Spec)
    ensures Join(a, a) == a && Join(Join(a, b), a) == Join(a, b) && Join(Join(a, b), b) == Join(a, b)
  {
    hide NewTemplates;
    NewTemplatesMembers(b.templates, a.templates);
    var joined := a.templates + NewTemplates(b.templates, a.templates);
    NewTemplatesNone(a.templates, a.templates);
    NewTemplatesNone(a.templates, joined);
    NewTemplatesNone(b.templates, joined);
    assert a.templates + [] == a.templates && joined + [] == joined;
    UnionLaws(a.keywordOnly, b.keywordOnly, {});
    UnionLaws(a.payload, b.payload, {});
    UnionLaws(a.dangerousDefaults, b.dangerousDefaults, {});
    UnionLaws(a.kwargKeys, b.kwargKeys, {});
  }

  lemma MergeAssociative(a: Option<Spec>, b: Option<Spec>, c: Option<Spec>)
    ensures Merge(Merge(a, b), c) == Merge(a, Merge(b, c))
  {
    hide Join;
    if a.Some? && b.Some? && c.Some? { JoinAssociative(a.value, b.value, c.value); }
  }

  /** None is the identity, merging is idempotent, and what is already merged in adds nothing. */
  lemma MergeAbsorbs(a: Option<Spec>, b: Option<Spec>)
    ensures Merge(None, a) == a && Merge(a, None) == a && Merge(a, a) == a
    ensures Merge(Merge(a, b), a) == Merge(a, b) && Merge(Merge(a, b), b) == Merge(a, b)
  {
    hide Join;
    if a.Some? { JoinAbsorbs(a.value, if b.Some? then b.value else a.value); }
    if b.Some? { JoinAbsorbs(b.value, b.value); }
  }

  /** What is known only grows. */
  ghost predicate Below(a: Option<Spec>, b: Option<Spec>) { Merge(a, b) == b }

  lemma BelowPartialOrder(a: Option<Spec>, b: Option<Spec>, c: Option<Spec>)
    ensures Below(a, a) && Below(a, Merge(a, b))
    ensures Below(a, b) && Below(b, c) ==> Below(a, c)
  {
    hide Merge;
    MergeAbsorbs(a, b);
    MergeAssociative(a, a, b);
    MergeAssociative(a, b, c);
  }

  // ---- Layers by remaining call depth -------------------------------------

  type Layers = seq<Option<Spec>>

  function LayerAt(layers: Layers, depth: nat): Option<Spec> {
    if depth < |layers| then layers[depth] else None
  }

  function Shift(layers: Layers): Layers { if layers == [] then layers else [None] + layers }

  function Advance(layers: Layers): Layers { if |layers| > 1 then layers[1..] else [] }

  function MergeAt(all: seq<Layers>, depth: nat): Option<Spec> {
    if all == [] then None else Merge(MergeAt(all[..|all| - 1], depth), LayerAt(all[|all| - 1], depth))
  }

  function Width(all: seq<Layers>): nat {
    if all == [] then 0 else
      var w := Width(all[1..]);
      if |all[0]| > w then |all[0]| else w
  }

  function Trim(layers: Layers): Layers {
    if layers != [] && layers[|layers| - 1].None? then Trim(layers[..|layers| - 1]) else layers
  }

  function MergeLayers(all: seq<Layers>): Layers {
    Trim(seq(Width(all), depth requires 0 <= depth => MergeAt(all, depth)))
  }

  predicate Trimmed(layers: Layers) { layers == [] || layers[|layers| - 1].Some? }

  method MergeCallableLayers(all: seq<Layers>) returns (merged: Layers)
    ensures merged == MergeLayers(all)
  {
    var width := Width(all);
    merged := [];
    for depth := 0 to width
      invariant merged == seq(depth, d requires 0 <= d => MergeAt(all, d))
    {
      var spec: Option<Spec> := None;
      for i := 0 to |all|
        invariant spec == MergeAt(all[..i], depth)
      {
        assert all[..i + 1][..i] == all[..i];
        spec := Merge(spec, LayerAt(all[i], depth));
      }
      assert all[..|all|] == all;
      merged := merged + [spec];
    }
    while merged != [] && merged[|merged| - 1].None?
      invariant Trim(merged) == MergeLayers(all)
      decreases |merged|
    {
      merged := merged[..|merged| - 1];
    }
  }

  lemma {:induction false} TrimKeeps(layers: Layers, depth: nat)
    ensures LayerAt(Trim(layers), depth) == LayerAt(layers, depth) && Trimmed(Trim(layers))
    decreases |layers|
  {
    if layers != [] && layers[|layers| - 1].None? { TrimKeeps(layers[..|layers| - 1], depth); }
  }

  lemma {:induction false} MergeAtBeyond(all: seq<Layers>, depth: nat)
    requires forall i :: 0 <= i < |all| ==> depth >= |all[i]|
    ensures MergeAt(all, depth) == None
    decreases |all|
  {
    if all != [] { MergeAtBeyond(all[..|all| - 1], depth); }
  }

  lemma {:induction false} WidthBounds(all: seq<Layers>)
    ensures forall i :: 0 <= i < |all| ==> |all[i]| <= Width(all)
  {
    if all != [] {
      WidthBounds(all[1..]);
      forall i | 0 <= i < |all| ensures |all[i]| <= Width(all) { assert i > 0 ==> all[i] == all[1..][i - 1]; }
    }
  }

  /** Merged layers are trimmed and hold, at every depth, the merge of what the inputs hold there. */
  lemma MergeLayersAt(all: seq<Layers>, depth: nat)
    ensures LayerAt(MergeLayers(all), depth) == MergeAt(all, depth) && Trimmed(MergeLayers(all))
  {
    var full := seq(Width(all), d requires 0 <= d => MergeAt(all, d));
    TrimKeeps(full, depth);
    WidthBounds(all);
    if depth >= Width(all) { MergeAtBeyond(all, depth); }
  }

  /** Trimmed layers are determined by what they hold at each depth. */
  lemma TrimmedEqual(a: Layers, b: Layers)
    requires Trimmed(a) && Trimmed(b) && forall d: nat :: LayerAt(a, d) == LayerAt(b, d)
    ensures a == b
  {
    assert a == [] || LayerAt(a, |a| - 1) == LayerAt(b, |a| - 1);
    assert b == [] || LayerAt(a, |b| - 1) == LayerAt(b, |b| - 1);
    forall d | 0 <= d < |a| ensures a[d] == b[d] { assert LayerAt(a, d) == LayerAt(b, d); }
  }

  function ShiftAll(all: seq<Layers>): seq<Layers> {
    if all == [] then [] else ShiftAll(all[..|all| - 1]) + [Shift(all[|all| - 1])]
  }

  lemma {:induction false} MergeAtShifted(all: seq<Layers>, depth: nat)
    ensures MergeAt(ShiftAll(all), depth) == if depth == 0 then None else MergeAt(all, depth - 1)
    decreases |all|
  {
    if all != [] {
      MergeAtShifted(all[..|all| - 1], depth);
      var shifted := ShiftAll(all);
      assert shifted[..|shifted| - 1] == ShiftAll(all[..|all| - 1]);
    }
  }

  /** A shift moves every layer one call further away, and advancing one nearer. */
  lemma LayersMove(layers: Layers, depth: nat)
    ensures LayerAt(Shift(layers), depth) == if depth == 0 then None else LayerAt(layers, depth - 1)
    ensures LayerAt(Advance(layers), depth) == LayerAt(layers, depth + 1)
  {
  }

  /** Advancing undoes a shift. */
  lemma AdvanceUndoesShift(layers: Layers)
    ensures Advance(Shift(layers)) == layers
  {
  }

  /** Shifting distributes over merging. */
  lemma ShiftOverMerge(all: seq<Layers>)
    ensures Shift(MergeLayers(all)) == MergeLayers(ShiftAll(all))
  {
    hide MergeLayers, ShiftAll, MergeAt;
    var merged := MergeLayers(all);
    MergeLayersAt(all, 0);
    MergeLayersAt(ShiftAll(all), 0);
    forall d: nat ensures LayerAt(Shift(merged), d) == LayerAt(MergeLayers(ShiftAll(all)), d) {
      MergeLayersAt(ShiftAll(all), d);
      MergeAtShifted(all, d);
      if d > 0 { MergeLayersAt(all, d - 1); }
    }
    TrimmedEqual(Shift(merged), MergeLayers(ShiftAll(all)));
  }
}
