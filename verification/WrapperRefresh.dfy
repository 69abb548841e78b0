/** scripts/check_container_image_pins.py: the worklist that brings the wrapper
    specs of a scope up to date after some names changed. */
module WrapperRefresh {
  import opened Wrappers
  import opened WrapperSpecs
  import opened WrapperOrder
  import Orders

  type Specs = map<string, Spec>
  type Dependencies = map<string, set<string>>

  /** What a function's definition says about it, given the specs of the scope. */
  type Transfer = (string, Specs) -> Option<Spec>

  function Get(specs: Specs, name: string): Option<Spec> {
    if name in specs then Some(specs[name]) else None
  }

  function Dependents(dependencies: Dependencies, name: string): set<string> {
    if name in dependencies then dependencies[name] else {}
  }

  /** Merging the transfer result into the spec changes nothing. */
  ghost predicate Stable(transfer: Transfer, specs: Specs, f: string) {
    Merge(Get(specs, f), transfer(f, specs)) == Get(specs, f)
  }

  ghost predicate AgreeOnReads(dependencies: Dependencies, f: string, s: Specs, s': Specs) {
    forall n :: f in Dependents(dependencies, n) ==> Get(s, n) == Get(s', n)
  }

  /** A transfer result depends only on names the function is recorded to depend on. */
  ghost predicate ReadsRecorded(transfer: Transfer, dependencies: Dependencies) {
    forall f, s, s' {:trigger AgreeOnReads(dependencies, f, s, s')} ::
      AgreeOnReads(dependencies, f, s, s') ==> transfer(f, s) == transfer(f, s')
  }

  // ---- A finite universe of names and templates ---------------------------

  datatype Universe = Universe(names: set<string>, templates: set<string>)

  ghost predicate Fits(spec: Spec, u: Universe) {
    && spec.keywordOnly <= u.names && spec.payload <= u.names
    && spec.dangerousDefaults <= u.names && spec.kwargKeys <= u.names
    && (forall t :: t in spec.templates ==> t in u.templates)
  }

  ghost predicate AllFit(specs: Specs, u: Universe) {
    forall f :: f in specs ==> Fits(specs[f], u)
  }

  ghost predicate StaysWithin(transfer: Transfer, u: Universe) {
    forall f, s {:trigger transfer(f, s)} :: AllFit(s, u) && transfer(f, s).Some? ==> Fits(transfer(f, s).value, u)
  }

  function TemplateSet(spec: Spec): set<string> { set t | t in spec.templates }

  function Bit(b: bool): nat { if b then 1 else 0 }

  function Rank(spec: Spec): nat {
    |spec.keywordOnly| + |spec.payload| + |spec.dangerousDefaults| + |spec.kwargKeys| + |TemplateSet(spec)|
    + Bit(spec.vararg.Some?) + Bit(spec.kwarg.Some?) + Bit(spec.alwaysDangerous) + Bit(spec.kwargUnbounded) + 1
  }

  function RankOf(spec: Option<Spec>): nat { if spec.None? then 0 else Rank(spec.value) }

  function MaxRank(u: Universe): nat { 4 * |u.names| + |u.templates| + 5 }

  lemma SubsetSize<T>(a: set<T>, b: set<T>)
    requires a <= b
    ensures |a| <= |b| && (|a| == |b| ==> a == b)
  {
    assert b == a + (b - a);
  }

  lemma RankBounded(spec: Spec, u: Universe)
    requires Fits(spec, u)
    ensures Rank(spec) <= MaxRank(u)
  {
    SubsetSize(spec.keywordOnly, u.names);
    SubsetSize(spec.payload, u.names);
    SubsetSize(spec.dangerousDefaults, u.names);
    SubsetSize(spec.kwargKeys, u.names);
    SubsetSize(TemplateSet(spec), u.templates);
  }

  /** A merge that changes a spec raises its rank. */
  lemma JoinRaisesRank(a: Spec, b: Spec)
    requires Join(a, b) != a
    ensures Rank(Join(a, b)) > Rank(a)
  {
    var c := Join(a, b);
    NewTemplatesMembers(b.templates, a.templates);
    SubsetSize(a.keywordOnly, c.keywordOnly);
    SubsetSize(a.payload, c.payload);
    SubsetSize(a.dangerousDefaults, c.dangerousDefaults);
    SubsetSize(a.kwargKeys, c.kwargKeys);
    SubsetSize(TemplateSet(a), TemplateSet(c));
    if TemplateSet(a) == TemplateSet(c) {
      forall t | t in b.templates ensures t in a.templates {
        assert t in TemplateSet(c) && t in TemplateSet(a);
      }
      NewTemplatesNone(b.templates, a.templates);
      assert a.templates + [] == a.templates;
    }
  }

  lemma MergeFits(a: Option<Spec>, b: Option<Spec>, u: Universe)
    requires (a.Some? ==> Fits(a.value, u)) && (b.Some? ==> Fits(b.value, u))
    ensures Merge(a, b).Some? ==> Fits(Merge(a, b).value, u)
  {
    if a.Some? && b.Some? { NewTemplatesMembers(b.value.templates, a.value.templates); }
  }

  /** How far the listed specs are, together, from the largest rank. */
  ghost function Slack(specs: Specs, order: seq<string>, u: Universe): nat
    requires AllFit(specs, u)
  {
    if order == [] then 0 else
      var spec := Get(specs, order[0]);
      if spec.Some? then RankBounded(spec.value, u); MaxRank(u) - RankOf(spec) + Slack(specs, order[1..], u)
      else MaxRank(u) + Slack(specs, order[1..], u)
  }

  lemma {:induction false} SlackDrops(specs: Specs, order: seq<string>, u: Universe, name: string, spec: Spec)
    requires AllFit(specs, u) && AllFit(specs[name := spec], u) && Rank(spec) > RankOf(Get(specs, name))
    ensures Slack(specs[name := spec], order, u) <= Slack(specs, order, u)
    ensures name in order ==> Slack(specs[name := spec], order, u) < Slack(specs, order, u)
  {
    hide Rank, MaxRank, AllFit;
    if order != [] { SlackDrops(specs, order[1..], u, name, spec); }
  }

  // ---- One update ---------------------------------------------------------

  lemma StaysStable(transfer: Transfer, dependencies: Dependencies, specs: Specs, name: string, spec: Spec, f: string)
    requires ReadsRecorded(transfer, dependencies) && f !in Dependents(dependencies, name)
    requires f != name && Stable(transfer, specs, f)
    ensures Stable(transfer, specs[name := spec], f)
  {
    hide Merge;
    assert AgreeOnReads(dependencies, f, specs, specs[name := spec]);
  }

  lemma BecomesStable(transfer: Transfer, dependencies: Dependencies, specs: Specs, name: string, spec: Spec)
    requires ReadsRecorded(transfer, dependencies) && name !in Dependents(dependencies, name)
    requires Some(spec) == Merge(Get(specs, name), transfer(name, specs))
    ensures Stable(transfer, specs[name := spec], name)
  {
    hide Merge;
    assert AgreeOnReads(dependencies, name, specs, specs[name := spec]);
    MergeAbsorbs(Get(specs, name), transfer(name, specs));
  }

  ghost predicate StableOrQueued(transfer: Transfer, specs: Specs, definitions: set<string>, queued: set<string>) {
    forall f {:trigger Stable(transfer, specs, f)} :: f in definitions ==> f in queued || Stable(transfer, specs, f)
  }

  lemma UpdateKeeps(transfer: Transfer, dependencies: Dependencies, definitions: set<string>, specs: Specs,
                    queued: set<string>, name: string, spec: Spec)
    requires ReadsRecorded(transfer, dependencies)
    requires StableOrQueued(transfer, specs, definitions, queued + {name})
    requires Some(spec) == Merge(Get(specs, name), transfer(name, specs))
    ensures StableOrQueued(transfer, specs[name := spec], definitions, queued + Dependents(dependencies, name))
  {
    hide Merge, ReadsRecorded, Stable;
    forall f | f in definitions && f !in queued + Dependents(dependencies, name)
      ensures Stable(transfer, specs[name := spec], f)
    {
      if f == name {
        BecomesStable(transfer, dependencies, specs, name, spec);
      } else {
        assert Stable(transfer, specs, f) || f in queued + {name};
        StaysStable(transfer, dependencies, specs, name, spec, f);
      }
    }
  }

  /** Nothing known is lost, and only defined functions, now aliases, gained anything. */
  ghost predicate Grown(before: Specs, after: Specs, definitions: set<string>, aliases: set<string>) {
    && (forall f {:trigger Get(after, f)} :: Below(Get(before, f), Get(after, f)))
    && (forall f {:trigger Get(after, f)} :: Get(after, f) != Get(before, f) ==> f in definitions && f in aliases)
  }

  lemma GrownStart(specs: Specs, definitions: set<string>, aliases: set<string>)
    ensures Grown(specs, specs, definitions, aliases)
  {
    hide Below;
    forall f ensures Below(Get(specs, f), Get(specs, f)) { BelowPartialOrder(Get(specs, f), None, None); }
  }

  lemma GrownNext(before: Specs, after: Specs, definitions: set<string>, aliases: set<string>,
                  name: string, spec: Spec, candidate: Option<Spec>)
    requires Grown(before, after, definitions, aliases) && name in definitions
    requires Some(spec) == Merge(Get(after, name), candidate)
    ensures Grown(before, after[name := spec], definitions, aliases + {name})
  {
    hide Below, Merge;
    var next := after[name := spec];
    forall f ensures Below(Get(before, f), Get(next, f)) {
      assert Below(Get(before, f), Get(after, f));
      if f == name {
        BelowPartialOrder(Get(after, name), candidate, None);
        BelowPartialOrder(Get(before, name), Get(after, name), Some(spec));
      }
    }
    forall f | Get(next, f) != Get(before, f) ensures f in definitions && f in aliases + {name} {
      assert f == name || Get(next, f) == Get(after, f);
    }
  }

  // ---- What the final specs say -------------------------------------------

  ghost predicate AllSayLess(specs: Specs, bound: Specs) {
    forall f {:trigger Get(specs, f)} :: SaysLess(Get(specs, f), Get(bound, f))
  }

  /** Whoever knows no more than the bound concludes no more than the bound. */
  ghost predicate Closed(transfer: Transfer, bound: Specs) {
    forall f, s {:trigger transfer(f, s)} :: AllSayLess(s, bound) ==> SaysLess(transfer(f, s), Get(bound, f))
  }

  /** No more is said than has to be. */
  ghost predicate Needed(transfer: Transfer, before: Specs, after: Specs) {
    forall bound {:trigger AllSayLess(before, bound)} ::
      Closed(transfer, bound) && AllSayLess(before, bound) ==> AllSayLess(after, bound)
  }

  lemma NeededStart(transfer: Transfer, specs: Specs)
    ensures Needed(transfer, specs, specs)
  {
  }

  lemma NeededNext(transfer: Transfer, before: Specs, after: Specs, name: string, spec: Spec)
    requires Needed(transfer, before, after) && Some(spec) == Merge(Get(after, name), transfer(name, after))
    ensures Needed(transfer, before, after[name := spec])
  {
    hide SaysLess, Merge;
    var next := after[name := spec];
    forall bound | Closed(transfer, bound) && AllSayLess(before, bound) ensures AllSayLess(next, bound) {
      forall f ensures SaysLess(Get(next, f), Get(bound, f)) {
        assert SaysLess(Get(after, f), Get(bound, f));
        if f == name { MergeLeast(Get(after, name), transfer(name, after), Get(bound, name)); }
      }
    }
  }

  lemma StableSays(transfer: Transfer, specs: Specs, f: string)
    requires Stable(transfer, specs, f)
    ensures SaysLess(transfer(f, specs), Get(specs, f))
  {
    MergeLeast(Get(specs, f), transfer(f, specs), Get(specs, f));
  }

  lemma GrownSays(before: Specs, after: Specs, definitions: set<string>, aliases: set<string>)
    requires Grown(before, after, definitions, aliases)
    ensures AllSayLess(before, after)
  {
    hide Below, SaysLess;
    forall f ensures SaysLess(Get(before, f), Get(after, f)) {
      assert Below(Get(before, f), Get(after, f));
      BelowSaysLess(Get(before, f), Get(after, f));
    }
  }

  // ---- The worklist as written --------------------------------------------

  ghost predicate Distinct(names: seq<string>) {
    forall i, j :: 0 <= i < j < |names| ==> names[i] != names[j]
  }

  /** The pending list has no duplicates and `queued` is its set. */
  ghost predicate Queue(pending: seq<string>, queued: set<string>) {
    Distinct(pending) && forall f :: f in pending <==> f in queued
  }

  function Backwards(s: seq<string>): (r: seq<string>)
    ensures |r| == |s| && forall i :: 0 <= i < |s| ==> r[i] == s[|s| - 1 - i]
  {
    seq(|s|, i requires 0 <= i < |s| => s[|s| - 1 - i])
  }

  lemma BackwardsKeeps(s: seq<string>)
    requires Distinct(s)
    ensures Distinct(Backwards(s)) && forall f :: f in Backwards(s) <==> f in s
  {
    var r := Backwards(s);
    forall i | 0 <= i < |s| ensures s[i] in r { assert r[|s| - 1 - i] == s[i]; }
  }

  lemma SortedDistinct(up: seq<string>, names: set<string>)
    requires Orders.SortedListing(Orders.NameLess, up, names)
    ensures Distinct(up) && forall f :: f in up <==> f in names
  {
    Orders.NameLessStrictTotal();
    assert forall i, j :: 0 <= i < j < |up| ==> Orders.NameLess(up[i], up[j]);
  }

  function Descending(names: set<string>): (r: seq<string>)
    ensures forall f :: f in r <==> f in names
    ensures Distinct(r)
  {
    var up := Orders.Sorted(names);
    SortedDistinct(up, names);
    BackwardsKeeps(up);
    Backwards(up)
  }

  method Enqueue(pending: seq<string>, queued: set<string>, names: set<string>)
      returns (pending': seq<string>, queued': set<string>)
    requires Queue(pending, queued)
    ensures Queue(pending', queued') && queued' == queued + names
  {
    pending', queued' := pending, queued;
    var order := Descending(names);
    for i := 0 to |order|
      invariant Queue(pending', queued') && queued' == queued + Members(order[..i])
    {
      MembersNext(order, i);
      if order[i] !in queued' {
        QueuePush(pending', queued', order[i]);
        pending' := pending' + [order[i]];
        queued' := queued' + {order[i]};
      }
    }
    assert order[..|order|] == order;
  }

  function Members(s: seq<string>): set<string> { set f | f in s }

  lemma MembersNext(s: seq<string>, i: nat)
    requires i < |s|
    ensures Members(s[..i + 1]) == Members(s[..i]) + {s[i]}
  {
    assert s[..i + 1] == s[..i] + [s[i]];
  }

  lemma QueuePush(pending: seq<string>, queued: set<string>, f: string)
    requires Queue(pending, queued) && f !in queued
    ensures Queue(pending + [f], queued + {f})
  {
  }

  lemma PopQueue(pending: seq<string>, queued: set<string>)
    requires Queue(pending, queued) && pending != []
    ensures var k := |pending| - 1; Queue(pending[..k], queued - {pending[k]}) && pending[k] in queued
  {
    var k := |pending| - 1;
    assert pending == pending[..k] + [pending[k]];
    assert pending[k] in pending;
  }

  class FunctionScope {
    const definitions: set<string>
    const dependencies: Dependencies
    var specs: Specs
    var aliases: set<string>

    constructor (definitions: set<string>, dependencies: Dependencies, specs: Specs, aliases: set<string>)
      ensures this.definitions == definitions && this.dependencies == dependencies
      ensures this.specs == specs && this.aliases == aliases
    {
      this.definitions, this.dependencies, this.specs, this.aliases := definitions, dependencies, specs, aliases;
    }

    function Affected(changed: set<string>): set<string>
    {
      set n, f | n in changed && f in Dependents(dependencies, n) :: f
    }

    /** If every function that does not depend on a changed name was stable, all
        functions are stable afterwards: each spec says what its definition says
        given the others. Nothing said before is lost, only defined functions
        gained anything, and no more is said than has to be. Termination needs a
        finite universe. */
    method Refresh(changed: set<string>, transfer: Transfer, ghost u: Universe)
      requires ReadsRecorded(transfer, dependencies)
      requires StaysWithin(transfer, u) && AllFit(specs, u)
      requires StableOrQueued(transfer, specs, definitions, Affected(changed))
      modifies this
      ensures forall f :: f in definitions ==> Stable(transfer, specs, f)
      ensures forall f :: f in definitions ==> SaysLess(transfer(f, specs), Get(specs, f))
      ensures Grown(old(specs), specs, definitions, aliases) && AllSayLess(old(specs), specs)
      ensures Needed(transfer, old(specs), specs)
      ensures aliases >= old(aliases) && AllFit(specs, u)
    {
      hide Merge, Stable, ReadsRecorded, StaysWithin, Grown, AllFit, Queue, StableOrQueued, Slack, Needed, AllSayLess, SaysLess;
      var pending := Descending(Affected(changed));
      var queued := Affected(changed);
      assert Queue(pending, queued) by { QueueFrom(pending, queued); }
      ghost var order := Orders.Sorted(definitions);
      GrownStart(specs, definitions, aliases);
      NeededStart(transfer, specs);
      while pending != []
        invariant Queue(pending, queued) && AllFit(specs, u)
        invariant StableOrQueued(transfer, specs, definitions, queued)
        invariant Grown(old(specs), specs, definitions, aliases) && Needed(transfer, old(specs), specs)
        invariant aliases >= old(aliases)
        decreases Slack(specs, order, u), |pending|
      {
        PopQueue(pending, queued);
        ghost var beforePop := queued;
        var name := pending[|pending| - 1];
        pending := pending[..|pending| - 1];
        queued := queued - {name};
        assert queued + {name} == beforePop;
        if name !in definitions {
          DropUndefined(transfer, specs, definitions, queued, name);
          continue;
        }
        var current := Get(specs, name);
        var merged := Merge(current, transfer(name, specs));
        if merged.None? || current == merged {
          DropSettled(transfer, specs, definitions, queued, name, merged);
          continue;
        }
        UpdateKeeps(transfer, dependencies, definitions, specs, queued, name, merged.value);
        UpdateProgress(transfer, specs, u, order, name, merged.value);
        GrownNext(old(specs), specs, definitions, aliases, name, merged.value, transfer(name, specs));
        NeededNext(transfer, old(specs), specs, name, merged.value);
        specs := specs[name := merged.value];
        aliases := aliases + {name};
        pending, queued := Enqueue(pending, queued, Dependents(dependencies, name));
      }
      EmptyQueue(pending, queued);
      AllStable(transfer, specs, definitions);
      AllSay(transfer, specs, definitions);
      GrownSays(old(specs), specs, definitions, aliases);
    }
  }

  lemma QueueFrom(pending: seq<string>, queued: set<string>)
    requires Distinct(pending) && forall f :: f in pending <==> f in queued
    ensures Queue(pending, queued)
  {
  }

  lemma EmptyQueue(pending: seq<string>, queued: set<string>)
    requires Queue(pending, queued) && pending == []
    ensures queued == {}
  {
  }

  lemma AllStable(transfer: Transfer, specs: Specs, definitions: set<string>)
    requires StableOrQueued(transfer, specs, definitions, {})
    ensures forall f :: f in definitions ==> Stable(transfer, specs, f)
  {
    hide Stable;
  }

  lemma AllSay(transfer: Transfer, specs: Specs, definitions: set<string>)
    requires forall f :: f in definitions ==> Stable(transfer, specs, f)
    ensures forall f :: f in definitions ==> SaysLess(transfer(f, specs), Get(specs, f))
  {
    hide Stable, SaysLess;
    forall f | f in definitions ensures SaysLess(transfer(f, specs), Get(specs, f)) { StableSays(transfer, specs, f); }
  }

  lemma DropUndefined(transfer: Transfer, specs: Specs, definitions: set<string>, queued: set<string>, name: string)
    requires StableOrQueued(transfer, specs, definitions, queued + {name}) && name !in definitions
    ensures StableOrQueued(transfer, specs, definitions, queued)
  {
    hide Stable;
  }

  lemma DropSettled(transfer: Transfer, specs: Specs, definitions: set<string>, queued: set<string>, name: string,
                    merged: Option<Spec>)
    requires StableOrQueued(transfer, specs, definitions, queued + {name})
    requires merged == Merge(Get(specs, name), transfer(name, specs)) && (merged.None? || Get(specs, name) == merged)
    ensures StableOrQueued(transfer, specs, definitions, queued)
  {
    SettledIsStable(transfer, specs, name, merged);
    hide Stable, Merge;
  }

  lemma SettledIsStable(transfer: Transfer, specs: Specs, name: string, merged: Option<Spec>)
    requires merged == Merge(Get(specs, name), transfer(name, specs)) && (merged.None? || Get(specs, name) == merged)
    ensures Stable(transfer, specs, name)
  {
  }

  lemma UpdateProgress(transfer: Transfer, specs: Specs, u: Universe, order: seq<string>, name: string, spec: Spec)
    requires StaysWithin(transfer, u) && AllFit(specs, u) && name in order
    requires Some(spec) == Merge(Get(specs, name), transfer(name, specs)) && Get(specs, name) != Some(spec)
    ensures AllFit(specs[name := spec], u)
    ensures Slack(specs[name := spec], order, u) < Slack(specs, order, u)
  {
    hide Rank, Join, Slack;
    var current, candidate := Get(specs, name), transfer(name, specs);
    MergeFits(current, candidate, u);
    if current.Some? { JoinRaisesRank(current.value, candidate.value); } else { RankPositive(spec); }
    SlackDrops(specs, order, u, name, spec);
  }

  lemma RankPositive(spec: Spec)
    ensures Rank(spec) > 0
  {
  }
}
