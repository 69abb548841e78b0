/** scripts/check_container_image_pins.py: single-assignment constants of a
    shell script, against runs of the script. */
module ShellConstants {
  import opened Wrappers
  import opened Namerefs

  /** What one command segment does to variables. Its order is its position in
      the script; `controlled` segments may run any number of times. */
  datatype Segment = Segment(
    assignments: seq<(string, string)>,
    definitions: References,
    mutations: seq<string>,
    controlled: bool)

  datatype Occurrence = Occurrence(text: string, controlled: bool, order: nat)

  /** A standalone assignment, or another mutation of unknown outcome. */
  datatype Effect = Assign(name: string, text: string) | Mutate(name: string)

  function EffectCount(seg: Segment): nat { |seg.assignments| + |seg.mutations| }

  /** The effects in the order the analysis visits them: assignments, then mutations. */
  function EffectAt(seg: Segment, i: nat): Effect
    requires i < EffectCount(seg)
  {
    if i < |seg.assignments| then Assign(seg.assignments[i].0, seg.assignments[i].1)
    else Mutate(seg.mutations[i - |seg.assignments|])
  }

  // ---- The analysis -------------------------------------------------------

  function Resolved(references: References, name: string): string {
    if name in references then references[name] else name
  }

  /** The variable an effect is booked under; an alias keeps its own definition. */
  function BookedName(seg: Segment, references: References, effect: Effect): string {
    if effect.Assign? && effect.name in seg.definitions then effect.name else Resolved(references, effect.name)
  }

  function OccurrenceOf(seg: Segment, order: nat, effect: Effect): Occurrence {
    match effect
    case Assign(_, text) => Occurrence(text, seg.controlled, order)
    case Mutate(_) => Occurrence("", true, order)
  }

  /** What the first n effects of a segment record for a name. */
  function SegmentOccurrences(seg: Segment, references: References, order: nat, name: string, n: nat): seq<Occurrence>
    requires n <= EffectCount(seg)
  {
    if n == 0 then [] else
      var effect := EffectAt(seg, n - 1);
      SegmentOccurrences(seg, references, order, name, n - 1)
      + if BookedName(seg, references, effect) == name then [OccurrenceOf(seg, order, effect)] else []
  }

  /** Everything recorded for a name by the first n segments. */
  function Occurrences(segments: seq<Segment>, references: References, name: string, n: nat): seq<Occurrence>
    requires n <= |segments|
  {
    if n == 0 then [] else
      Occurrences(segments, references, name, n - 1)
      + SegmentOccurrences(segments[n - 1], references, n - 1, name, EffectCount(segments[n - 1]))
  }

  predicate Static(text: string) { '$' !in text && '`' !in text }

  /** The literal value of a variable used by the segments with the given orders. */
  function LiteralAssignment(occurrences: seq<Occurrence>, uses: seq<nat>): Option<string> {
    if |occurrences| != 1 then None else
      var only := occurrences[0];
      if only.text == "" || !Static(only.text) || only.controlled then None
      else if forall u :: u in uses ==> only.order < u then Some(only.text) else None
  }

  type Book<T> = map<string, seq<T>>

  function Get<T>(m: Book<T>, name: string): seq<T> {
    if name in m then m[name] else []
  }

  function Add<T>(m: Book<T>, name: string, item: T): (r: Book<T>)
    ensures forall other {:trigger Get(r, other)} ::
      Get(r, other) == if other == name then Get(m, name) + [item] else Get(m, other)
  {
    m[name := Get(m, name) + [item]]
  }

  ghost predicate SegmentRecorded(before: Book<Occurrence>, after: Book<Occurrence>,
                                  seg: Segment, references: References, order: nat, n: nat)
    requires n <= EffectCount(seg)
  {
    forall name {:trigger Get(after, name)} ::
      Get(after, name) == Get(before, name) + SegmentOccurrences(seg, references, order, name, n)
  }

  lemma EffectRecorded(before: Book<Occurrence>, after: Book<Occurrence>,
                       seg: Segment, references: References, order: nat, n: nat)
    requires n < EffectCount(seg) && SegmentRecorded(before, after, seg, references, order, n)
    ensures var effect := EffectAt(seg, n);
      SegmentRecorded(before, Add(after, BookedName(seg, references, effect), OccurrenceOf(seg, order, effect)),
                      seg, references, order, n + 1)
  {
    hide BookedName, OccurrenceOf, Get, Add, EffectAt;
    var effect := EffectAt(seg, n);
    var next := Add(after, BookedName(seg, references, effect), OccurrenceOf(seg, order, effect));
    forall name ensures
        Get(next, name) == Get(before, name) + SegmentOccurrences(seg, references, order, name, n + 1) {
      assert Get(after, name) == Get(before, name) + SegmentOccurrences(seg, references, order, name, n);
    }
  }

  method RecordShellOccurrences(seg: Segment, order: nat, occurrences: Book<Occurrence>, references: References)
      returns (recorded: Book<Occurrence>)
    ensures SegmentRecorded(occurrences, recorded, seg, references, order, EffectCount(seg))
  {
    hide SegmentRecorded, Get, Add;
    NothingRecorded(occurrences, seg, references, order);
    recorded := occurrences;
    for i := 0 to |seg.assignments|
      invariant SegmentRecorded(occurrences, recorded, seg, references, order, i)
    {
      EffectRecorded(occurrences, recorded, seg, references, order, i);
      var (name, text) := seg.assignments[i];
      var resolved := if name in seg.definitions then name else Resolved(references, name);
      recorded := Add(recorded, resolved, Occurrence(text, seg.controlled, order));
    }
    for i := 0 to |seg.mutations|
      invariant SegmentRecorded(occurrences, recorded, seg, references, order, |seg.assignments| + i)
    {
      EffectRecorded(occurrences, recorded, seg, references, order, |seg.assignments| + i);
      recorded := Add(recorded, Resolved(references, seg.mutations[i]), Occurrence("", true, order));
    }
  }

  lemma NothingRecorded(book: Book<Occurrence>, seg: Segment, references: References, order: nat)
    ensures SegmentRecorded(book, book, seg, references, order, 0)
  {
  }

  ghost predicate ScriptRecorded(book: Book<Occurrence>, segments: seq<Segment>, references: References, n: nat)
    requires n <= |segments|
  {
    forall name {:trigger Get(book, name)} :: Get(book, name) == Occurrences(segments, references, name, n)
  }

  lemma ScriptRecordedNext(book: Book<Occurrence>, book': Book<Occurrence>,
                           segments: seq<Segment>, references: References, n: nat)
    requires n < |segments| && ScriptRecorded(book, segments, references, n)
    requires SegmentRecorded(book, book', segments[n], references, n, EffectCount(segments[n]))
    ensures ScriptRecorded(book', segments, references, n + 1)
  {
    hide SegmentOccurrences, Get;
    forall name ensures Get(book', name) == Occurrences(segments, references, name, n + 1) {
      assert Get(book, name) == Occurrences(segments, references, name, n);
    }
  }

  /** The recording pass over a whole script, in order. */
  method RecordScript(segments: seq<Segment>, references: References) returns (occurrences: Book<Occurrence>)
    ensures ScriptRecorded(occurrences, segments, references, |segments|)
  {
    hide SegmentRecorded;
    occurrences := map[];
    for i := 0 to |segments|
      invariant ScriptRecorded(occurrences, segments, references, i)
    {
      var before := occurrences;
      occurrences := RecordShellOccurrences(segments[i], i, occurrences, references);
      ScriptRecordedNext(before, occurrences, segments, references, i);
    }
  }

  // ---- Namerefs of a script -----------------------------------------------

  /** The definitions of an alias in the first n segments. */
  function Definitions(segments: seq<Segment>, alias: string, n: nat): seq<(string, bool)>
    requires n <= |segments|
  {
    if n == 0 then [] else
      Definitions(segments, alias, n - 1)
      + if alias in segments[n - 1].definitions
        then [(segments[n - 1].definitions[alias], segments[n - 1].controlled)] else []
  }

  /** Aliases defined once, and not under control flow. */
  predicate Declared(segments: seq<Segment>, alias: string) {
    var found := Definitions(segments, alias, |segments|);
    |found| == 1 && !found[0].1
  }

  ghost predicate DeclaredMap(segments: seq<Segment>, declared: References) {
    forall alias :: (alias in declared <==> Declared(segments, alias))
      && (alias in declared ==> declared[alias] == Definitions(segments, alias, |segments|)[0].0)
  }

  ghost predicate Compressed(declared: References, references: References) {
    && references.Keys == declared.Keys
    && (forall x, y :: x in declared && EndsAt(declared, x, y) ==> references[x] == y)
    && (forall x :: x in declared ==> (references[x] !in declared <==> Ends(declared, x)))
  }

  ghost predicate DefinitionsBooked(book: Book<(string, bool)>, segments: seq<Segment>, n: nat)
    requires n <= |segments|
  {
    forall alias {:trigger Get(book, alias)} :: Get(book, alias) == Definitions(segments, alias, n)
  }

  function DefinitionIn(seg: Segment, alias: string, keys: set<string>): seq<(string, bool)> {
    if alias in seg.definitions && alias in keys then [(seg.definitions[alias], seg.controlled)] else []
  }

  ghost predicate KeysBooked(before: Book<(string, bool)>, after: Book<(string, bool)>, seg: Segment, keys: set<string>) {
    forall alias {:trigger Get(after, alias)} ::
      Get(after, alias) == Get(before, alias) + DefinitionIn(seg, alias, keys)
  }

  lemma KeyBooked(before: Book<(string, bool)>, after: Book<(string, bool)>, seg: Segment, keys: set<string>, key: string)
    requires KeysBooked(before, after, seg, keys) && key in seg.definitions && key !in keys
    ensures KeysBooked(before, Add(after, key, (seg.definitions[key], seg.controlled)), seg, keys + {key})
  {
    hide Get, Add;
    var next := Add(after, key, (seg.definitions[key], seg.controlled));
    forall alias ensures Get(next, alias) == Get(before, alias) + DefinitionIn(seg, alias, keys + {key}) {
      assert Get(after, alias) == Get(before, alias) + DefinitionIn(seg, alias, keys);
    }
  }

  method BookDefinitions(seg: Segment, before: Book<(string, bool)>) returns (after: Book<(string, bool)>)
    ensures KeysBooked(before, after, seg, seg.definitions.Keys)
  {
    hide Get, Add;
    after := before;
    var rest := seg.definitions.Keys;
    assert KeysBooked(before, after, seg, {});
    while rest != {}
      invariant rest <= seg.definitions.Keys && KeysBooked(before, after, seg, seg.definitions.Keys - rest)
      decreases rest
    {
      hide KeysBooked;
      var alias :| alias in rest;
      KeyBooked(before, after, seg, seg.definitions.Keys - rest, alias);
      assert seg.definitions.Keys - rest + {alias} == seg.definitions.Keys - (rest - {alias});
      after := Add(after, alias, (seg.definitions[alias], seg.controlled));
      rest := rest - {alias};
    }
    assert seg.definitions.Keys - rest == seg.definitions.Keys;
  }

  lemma DefinitionsBookedNext(before: Book<(string, bool)>, after: Book<(string, bool)>, segments: seq<Segment>, n: nat)
    requires n < |segments| && DefinitionsBooked(before, segments, n)
    requires KeysBooked(before, after, segments[n], segments[n].definitions.Keys)
    ensures DefinitionsBooked(after, segments, n + 1)
  {
    hide Get;
    forall alias ensures Get(after, alias) == Definitions(segments, alias, n + 1) {
      assert Get(before, alias) == Definitions(segments, alias, n);
    }
  }

  /** The aliases with one uncontrolled definition. */
  function OnceDefined(occurrences: Book<(string, bool)>): References {
    map alias | alias in occurrences && |occurrences[alias]| == 1 && !occurrences[alias][0].1 :: occurrences[alias][0].0
  }

  lemma OnceDefinedDeclared(occurrences: Book<(string, bool)>, segments: seq<Segment>)
    requires DefinitionsBooked(occurrences, segments, |segments|)
    ensures DeclaredMap(segments, OnceDefined(occurrences))
  {
    hide Definitions;
    var found := OnceDefined(occurrences);
    forall alias ensures (alias in found <==> Declared(segments, alias))
        && (alias in found ==> found[alias] == Definitions(segments, alias, |segments|)[0].0) {
      assert Get(occurrences, alias) == Definitions(segments, alias, |segments|);
    }
  }

  method ShellNamerefs(segments: seq<Segment>) returns (references: References)
    ensures exists declared :: DeclaredMap(segments, declared) && Compressed(declared, references)
  {
    hide DeclaredMap, KeysBooked, OnceDefined;
    var occurrences: Book<(string, bool)> := map[];
    for i := 0 to |segments|
      invariant DefinitionsBooked(occurrences, segments, i)
    {
      hide DefinitionsBooked;
      var before := occurrences;
      occurrences := BookDefinitions(segments[i], before);
      DefinitionsBookedNext(before, occurrences, segments, i);
    }
    OnceDefinedDeclared(occurrences, segments);
    var found := OnceDefined(occurrences);
    var order := SomeOrder(found.Keys);
    references := CompressNamerefs(order, found);
    assert Compressed(found, references);
  }

  /** The iteration order of a dictionary; nothing depends on it. */
  method SomeOrder(keys: set<string>) returns (order: seq<string>)
    ensures forall x :: x in order <==> x in keys
  {
    order := [];
    var rest := keys;
    while rest != {}
      invariant rest <= keys && forall x :: x in order <==> x in keys - rest
      decreases rest
    {
      var x :| x in rest;
      order := order + [x];
      rest := rest - {x};
    }
  }
}
