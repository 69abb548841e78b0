/** What one wrapper spec says less than another, field by field, and the merge as
    the least spec that says what both its arguments say. */
module WrapperOrder {
  import opened Wrappers
  import opened WrapperSpecs

  /** Whatever a marks as dangerous, or as a parameter, b marks too. */
  ghost predicate Within(a: Spec, b: Spec) {
    && a.keywordOnly <= b.keywordOnly && a.payload <= b.payload
    && a.dangerousDefaults <= b.dangerousDefaults && a.kwargKeys <= b.kwargKeys
    && (a.alwaysDangerous ==> b.alwaysDangerous) && (a.kwargUnbounded ==> b.kwargUnbounded)
    && (a.vararg.Some? ==> b.vararg.Some?) && (a.kwarg.Some? ==> b.kwarg.Some?)
    && forall t :: t in a.templates ==> t in b.templates
  }

  /** No spec says nothing. */
  ghost predicate SaysLess(a: Option<Spec>, b: Option<Spec>) {
    a.Some? ==> b.Some? && Within(a.value, b.value)
  }

  lemma SaysLessPreorder(a: Option<Spec>, b: Option<Spec>, c: Option<Spec>)
    ensures SaysLess(a, a) && SaysLess(None, a) && (SaysLess(a, b) && SaysLess(b, c) ==> SaysLess(a, c))
  {
  }

  /** The merge says what both say and nothing more. */
  lemma MergeLeast(a: Option<Spec>, b: Option<Spec>, c: Option<Spec>)
    ensures SaysLess(a, Merge(a, b)) && SaysLess(b, Merge(a, b))
    ensures SaysLess(Merge(a, b), c) <==> SaysLess(a, c) && SaysLess(b, c)
  {
    if a.Some? && b.Some? { NewTemplatesMembers(b.value.templates, a.value.templates); }
  }

  /** The entries of `all` that are not in `known`, in their order. */
  ghost predicate Remaining(rest: seq<string>, all: seq<string>, known: seq<string>) {
    exists at: seq<nat> :: Places(at, rest, all, known)
  }

  ghost predicate Places(at: seq<nat>, rest: seq<string>, all: seq<string>, known: seq<string>) {
    && |at| == |rest|
    && (forall i, j :: 0 <= i < j < |at| ==> at[i] < at[j])
    && (forall i :: 0 <= i < |at| ==> at[i] < |all| && rest[i] == all[at[i]])
    && forall j: nat :: j < |all| ==> (all[j] !in known <==> j in at)
  }

  lemma {:induction false} NewTemplatesRemain(all: seq<string>, known: seq<string>)
    ensures Remaining(NewTemplates(all, known), all, known)
    decreases |all|
  {
    if all == [] {
      assert Places([], [], all, known);
    } else {
      hide Places;
      var k := |all| - 1;
      NewTemplatesRemain(all[..k], known);
      var before := NewTemplates(all[..k], known);
      var at: seq<nat> :| Places(at, before, all[..k], known);
      if all[k] in known {
        PlacesSkip(at, before, all, known);
        assert before + [] == before;
      } else {
        PlacesNext(at, before, all, known);
      }
    }
  }

  lemma PlacesSkip(at: seq<nat>, rest: seq<string>, all: seq<string>, known: seq<string>)
    requires all != [] && all[|all| - 1] in known && Places(at, rest, all[..|all| - 1], known)
    ensures Places(at, rest, all, known)
  {
    var k := |all| - 1;
    forall j: nat | j < |all| ensures all[j] !in known <==> j in at {
      if j < k { assert all[..k][j] == all[j]; }
    }
  }

  lemma PlacesNext(at: seq<nat>, rest: seq<string>, all: seq<string>, known: seq<string>)
    requires all != [] && all[|all| - 1] !in known && Places(at, rest, all[..|all| - 1], known)
    ensures Places(at + [|all| - 1], rest + [all[|all| - 1]], all, known)
  {
    var k := |all| - 1;
    var at' := at + [k];
    forall j: nat | j < |all| ensures all[j] !in known <==> j in at' {
      if j < k { assert all[..k][j] == all[j]; }
    }
  }

  /** What has one place for two answers is the first argument's where it has
      one: the positional parameters, the names behind the stars, and the order
      of the templates, behind which come the second's new ones. */
  lemma FirstComesFirst(a: Spec, b: Spec)
    ensures Merge(Some(a), Some(b)).Some?
    ensures var m := Merge(Some(a), Some(b)).value;
      && m.positional == a.positional
      && (a.vararg.Some? ==> m.vararg == a.vararg) && (a.vararg.None? ==> m.vararg == b.vararg)
      && (a.kwarg.Some? ==> m.kwarg == a.kwarg) && (a.kwarg.None? ==> m.kwarg == b.kwarg)
      && a.templates <= m.templates && Remaining(m.templates[|a.templates|..], b.templates, a.templates)
  {
    NewTemplatesRemain(b.templates, a.templates);
    hide NewTemplates, Remaining;
    assert (a.templates + NewTemplates(b.templates, a.templates))[|a.templates|..] == NewTemplates(b.templates, a.templates);
  }

  /** The order by merging agrees with the order by fields. */
  lemma BelowSaysLess(a: Option<Spec>, b: Option<Spec>)
    ensures Below(a, b) ==> SaysLess(a, b)
    ensures SaysLess(a, b) ==> SaysLess(Merge(b, a), b)
  {
    MergeLeast(a, b, b);
    MergeLeast(b, a, b);
    SaysLessPreorder(b, b, b);
    hide Merge, SaysLess;
  }

  /** At every depth the merged layers say what each input says there, and nothing more. */
  lemma {:induction false} LayersLeast(all: seq<Layers>, depth: nat, c: Option<Spec>)
    ensures SaysLess(LayerAt(MergeLayers(all), depth), c)
      <==> forall i :: 0 <= i < |all| ==> SaysLess(LayerAt(all[i], depth), c)
  {
    MergeLayersAt(all, depth);
    MergeAtLeast(all, depth, c);
  }

  lemma {:induction false} MergeAtLeast(all: seq<Layers>, depth: nat, c: Option<Spec>)
    ensures SaysLess(MergeAt(all, depth), c) <==> forall i :: 0 <= i < |all| ==> SaysLess(LayerAt(all[i], depth), c)
    decreases |all|
  {
    hide SaysLess, Merge, LayerAt;
    if all == [] {
      SaysLessPreorder(c, None, None);
    } else {
      var k := |all| - 1;
      MergeAtLeast(all[..k], depth, c);
      MergeLeast(MergeAt(all[..k], depth), LayerAt(all[k], depth), c);
      assert forall i :: 0 <= i < k ==> all[..k][i] == all[i];
    }
  }
}
