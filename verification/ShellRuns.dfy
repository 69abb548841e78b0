/** Runs of a shell script's variable effects, and when the constants of the
    analysis are the values a run sees. */
module ShellRuns {
  import opened Wrappers
  import opened Namerefs
  import opened ShellConstants

  /** Variable contents and the namerefs declared so far. */
  datatype State = State(cells: map<string, string>, namerefs: References)

  /** One execution of a segment, with the values its non-static writes happen to produce. */
  datatype Event = Event(order: nat, chosen: seq<string>)

  function Cell(s: State, name: string): string {
    if name in s.cells then s.cells[name] else ""
  }

  /** The variable a name denotes; a circular chain denotes none. */
  ghost function Denoted(namerefs: References, name: string): Option<string> {
    if Ends(namerefs, name) then
      var y :| EndsAt(namerefs, name, y);
      Some(y)
    else None
  }

  /** `$name`. */
  ghost function Expand(s: State, name: string): string {
    match Denoted(s.namerefs, name)
    case Some(variable) => Cell(s, variable)
    case None => ""
  }

  ghost function WriteThrough(s: State, name: string, text: string): State {
    match Denoted(s.namerefs, name)
    case Some(variable) => s.(cells := s.cells[variable := text])
    case None => s
  }

  /** An assignment of static text writes it, any other effect writes the chosen
      value; defining a nameref writes nothing. */
  ghost function Perform(s: State, seg: Segment, effect: Effect, chosen: string): State {
    match effect
    case Assign(name, text) =>
      if name in seg.definitions then s else WriteThrough(s, name, if Static(text) then text else chosen)
    case Mutate(name) => WriteThrough(s, name, chosen)
  }

  /** The first n effects of a segment. */
  ghost function PerformTo(s: State, seg: Segment, chosen: seq<string>, n: nat): State
    requires n <= EffectCount(seg)
  {
    if n == 0 then s else
      Perform(PerformTo(s, seg, chosen, n - 1), seg, EffectAt(seg, n - 1),
              if n - 1 < |chosen| then chosen[n - 1] else "")
  }

  ghost function Execute(s: State, seg: Segment, chosen: seq<string>): State {
    PerformTo(s.(namerefs := s.namerefs + seg.definitions), seg, chosen, EffectCount(seg))
  }

  /** A segment may run when the uncontrolled ones before it have, and, unless it
      is controlled, it has not run yet. */
  ghost predicate Ready(segments: seq<Segment>, before: seq<Event>, order: nat) {
    && order < |segments|
    && (forall k :: 0 <= k < order && !segments[k].controlled ==> Happened(before, k))
    && (!segments[order].controlled ==> !Happened(before, order))
  }

  ghost predicate ValidAt(segments: seq<Segment>, events: seq<Event>, i: int)
    requires 0 <= i < |events|
  {
    Ready(segments, events[..i], events[i].order)
  }

  /** Segments run in script order; a controlled one any number of times, but
      only after the uncontrolled ones before it. */
  ghost predicate ValidRun(segments: seq<Segment>, events: seq<Event>) {
    InRange(segments, events) && forall i {:trigger ValidAt(segments, events, i)} :: 0 <= i < |events| ==> ValidAt(segments, events, i)
  }

  ghost predicate InRange(segments: seq<Segment>, events: seq<Event>) {
    forall i :: 0 <= i < |events| ==> events[i].order < |segments|
  }

  ghost predicate Happened(events: seq<Event>, order: nat) {
    exists j :: 0 <= j < |events| && events[j].order == order
  }

  ghost function After(segments: seq<Segment>, s: State, events: seq<Event>): State
    requires forall i :: 0 <= i < |events| ==> events[i].order < |segments|
  {
    if events == [] then s else
      var k := |events| - 1;
      Execute(After(segments, s, events[..k]), segments[events[k].order], events[k].chosen)
  }

  /** The namerefs defined by the first n segments. */
  function DefinedBy(segments: seq<Segment>, n: nat): References
    requires n <= |segments|
  {
    if n == 0 then map[] else DefinedBy(segments, n - 1) + segments[n - 1].definitions
  }

  predicate Defined(segments: seq<Segment>, alias: string) {
    exists k :: 0 <= k < |segments| && alias in segments[k].definitions
  }

  /** Every nameref is declared once, by a segment that is not under control flow. */
  predicate NamerefsSimple(segments: seq<Segment>) {
    forall k, alias :: 0 <= k < |segments| && alias in segments[k].definitions ==>
      && !segments[k].controlled
      && forall j :: 0 <= j < |segments| && alias in segments[j].definitions ==> j == k
  }

  /** The namerefs in force are some of the script's. */
  ghost predicate Within(namerefs: References, all: References) {
    forall x :: x in namerefs ==> x in all && namerefs[x] == all[x]
  }

  lemma {:induction false} DefinedByHas(segments: seq<Segment>, n: nat, k: nat, alias: string)
    requires NamerefsSimple(segments) && k < n <= |segments| && alias in segments[k].definitions
    ensures alias in DefinedBy(segments, n) && DefinedBy(segments, n)[alias] == segments[k].definitions[alias]
    decreases n
  {
    if k < n - 1 { DefinedByHas(segments, n - 1, k, alias); }
  }

  lemma {:induction false} DefinedByOnly(segments: seq<Segment>, n: nat, alias: string)
    requires n <= |segments| && alias in DefinedBy(segments, n)
    ensures exists k :: 0 <= k < n && alias in segments[k].definitions
    decreases n
  {
    if alias !in segments[n - 1].definitions { DefinedByOnly(segments, n - 1, alias); }
  }

  lemma UndefinedStaysOut(segments: seq<Segment>, n: nat, name: string)
    requires n <= |segments| && !Defined(segments, name)
    ensures name !in DefinedBy(segments, n)
  {
    if n > 0 { UndefinedStaysOut(segments, n - 1, name); }
  }

  lemma {:induction false} DefinitionsOfSimple(segments: seq<Segment>, n: nat, alias: string, k: nat)
    requires n <= |segments| && k < |segments| && alias in segments[k].definitions && !segments[k].controlled
    requires forall j :: 0 <= j < |segments| && alias in segments[j].definitions ==> j == k
    ensures Definitions(segments, alias, n) == if k < n then [(segments[k].definitions[alias], false)] else []
    decreases n
  {
    if n > 0 { DefinitionsOfSimple(segments, n - 1, alias, k); }
  }

  lemma {:induction false} NoDefinitions(segments: seq<Segment>, n: nat, alias: string)
    requires n <= |segments| && !Defined(segments, alias)
    ensures Definitions(segments, alias, n) == []
    decreases n
  {
    if n > 0 { NoDefinitions(segments, n - 1, alias); }
  }

  /** Of a simple script the analysis knows every nameref. */
  lemma DeclaredIsDefined(segments: seq<Segment>, declared: References)
    requires NamerefsSimple(segments) && DeclaredMap(segments, declared)
    ensures declared == DefinedBy(segments, |segments|)
  {
    var all := DefinedBy(segments, |segments|);
    forall alias ensures alias in declared <==> alias in all
                 ensures alias in declared ==> declared[alias] == all[alias] {
      if Defined(segments, alias) {
        var k :| 0 <= k < |segments| && alias in segments[k].definitions;
        DefinitionsOfSimple(segments, |segments|, alias, k);
        DefinedByHas(segments, |segments|, k, alias);
      } else {
        NoDefinitions(segments, |segments|, alias);
        if alias in all { DefinedByOnly(segments, |segments|, alias); }
      }
    }
  }

  // ---- Where writes go ----------------------------------------------------

  lemma {:induction false} EndsAtWithin(m: References, all: References, x: string, y: string, k: nat)
    requires Within(m, all) && y !in all && Follow(m, x, k) == y
    ensures EndsAt(all, x, y)
    decreases k
  {
    if x !in m || k == 0 {
      EndsAtSink(all, y);
    } else {
      EndsAtWithin(m, all, m[x], y, k - 1);
      EndsAtNext(all, x, y);
    }
  }

  /** A write that reaches a plain variable is one the analysis books under it. */
  lemma WriteIsBooked(namerefs: References, declared: References, references: References, written: string, name: string)
    requires Within(namerefs, declared) && Compressed(declared, references) && name !in declared
    requires Denoted(namerefs, written) == Some(name)
    ensures Resolved(references, written) == name
  {
    var k: nat :| Follow(namerefs, written, k) == name;
    EndsAtWithin(namerefs, declared, written, name, k);
    if written !in declared { EndsAtSink(declared, written); }
  }

  lemma {:induction false} PerformKeepsNamerefs(s: State, seg: Segment, chosen: seq<string>, n: nat)
    requires n <= EffectCount(seg)
    ensures PerformTo(s, seg, chosen, n).namerefs == s.namerefs
  {
    hide Denoted;
    if n > 0 { PerformKeepsNamerefs(s, seg, chosen, n - 1); }
  }

  /** An effect booked elsewhere leaves the variable alone. */
  lemma PerformElsewhere(s: State, declared: References, references: References,
                         seg: Segment, effect: Effect, chosen: string, name: string)
    requires Within(s.namerefs, declared) && Compressed(declared, references) && name !in declared
    requires BookedName(seg, references, effect) != name
    ensures Cell(Perform(s, seg, effect, chosen), name) == Cell(s, name)
  {
    hide Compressed, Within;
    if Denoted(s.namerefs, effect.name) == Some(name) {
      WriteIsBooked(s.namerefs, declared, references, effect.name, name);
    }
  }

  lemma {:induction false} PerformRestElsewhere(s: State, declared: References, references: References,
                                                seg: Segment, chosen: seq<string>, i: nat, n: nat, name: string)
    requires Within(s.namerefs, declared) && Compressed(declared, references) && name !in declared
    requires i <= n <= EffectCount(seg)
    requires forall j :: i <= j < n ==> BookedName(seg, references, EffectAt(seg, j)) != name
    ensures Cell(PerformTo(s, seg, chosen, n), name) == Cell(PerformTo(s, seg, chosen, i), name)
    decreases n
  {
    hide Perform, BookedName, Compressed, Within, Cell;
    if i < n {
      PerformRestElsewhere(s, declared, references, seg, chosen, i, n - 1, name);
      PerformKeepsNamerefs(s, seg, chosen, n - 1);
      PerformElsewhere(PerformTo(s, seg, chosen, n - 1), declared, references, seg, EffectAt(seg, n - 1),
                       if n - 1 < |chosen| then chosen[n - 1] else "", name);
    }
  }

  lemma {:induction false} NothingBooked(seg: Segment, references: References, order: nat, name: string, n: nat)
    requires n <= EffectCount(seg) && SegmentOccurrences(seg, references, order, name, n) == []
    ensures forall j :: 0 <= j < n ==> BookedName(seg, references, EffectAt(seg, j)) != name
  {
    hide BookedName;
    if n > 0 { NothingBooked(seg, references, order, name, n - 1); }
  }

  /** The effect behind the only occurrence. */
  lemma {:induction false} OnlyBooked(seg: Segment, references: References, order: nat, name: string, n: nat) returns (i: nat)
    requires n <= EffectCount(seg) && |SegmentOccurrences(seg, references, order, name, n)| == 1
    ensures i < n && BookedName(seg, references, EffectAt(seg, i)) == name
    ensures SegmentOccurrences(seg, references, order, name, n)[0] == OccurrenceOf(seg, order, EffectAt(seg, i))
    ensures forall j :: 0 <= j < n && j != i ==> BookedName(seg, references, EffectAt(seg, j)) != name
  {
    hide BookedName, OccurrenceOf;
    if BookedName(seg, references, EffectAt(seg, n - 1)) == name {
      i := n - 1;
      NothingBooked(seg, references, order, name, n - 1);
    } else {
      i := OnlyBooked(seg, references, order, name, n - 1);
    }
  }

  /** The segment that records a constant writes it, provided its name reaches the variable. */
  lemma ExecuteConstant(s: State, declared: References, references: References,
                        seg: Segment, chosen: seq<string>, i: nat, name: string)
    requires Within(s.namerefs + seg.definitions, declared) && Compressed(declared, references) && name !in declared
    requires i < EffectCount(seg) && EffectAt(seg, i).Assign? && EffectAt(seg, i).name !in seg.definitions
    requires Static(EffectAt(seg, i).text)
    requires forall j :: 0 <= j < EffectCount(seg) && j != i ==> BookedName(seg, references, EffectAt(seg, j)) != name
    ensures var reached := Denoted(s.namerefs + seg.definitions, EffectAt(seg, i).name) == Some(name);
      Cell(Execute(s, seg, chosen), name) == if reached then EffectAt(seg, i).text else Cell(s, name)
  {
    hide BookedName, Compressed, Within, Denoted, Static;
    var s' := s.(namerefs := s.namerefs + seg.definitions);
    PerformRestElsewhere(s', declared, references, seg, chosen, 0, i, name);
    PerformRestElsewhere(s', declared, references, seg, chosen, i + 1, EffectCount(seg), name);
    PerformKeepsNamerefs(s', seg, chosen, i);
  }

  lemma ExecuteElsewhere(s: State, declared: References, references: References,
                         seg: Segment, chosen: seq<string>, order: nat, name: string)
    requires Within(s.namerefs + seg.definitions, declared) && Compressed(declared, references) && name !in declared
    requires SegmentOccurrences(seg, references, order, name, EffectCount(seg)) == []
    ensures Cell(Execute(s, seg, chosen), name) == Cell(s, name)
  {
    NothingBooked(seg, references, order, name, EffectCount(seg));
    hide BookedName, Compressed, Within, SegmentOccurrences;
    PerformRestElsewhere(s.(namerefs := s.namerefs + seg.definitions), declared, references, seg, chosen, 0,
                         EffectCount(seg), name);
  }

  // ---- Constants along a run ----------------------------------------------

  function NamerefsOf(segments: seq<Segment>, events: seq<Event>): References
    requires forall i :: 0 <= i < |events| ==> events[i].order < |segments|
  {
    if events == [] then map[] else
      var k := |events| - 1;
      NamerefsOf(segments, events[..k]) + segments[events[k].order].definitions
  }

  ghost predicate DefinesAt(segments: seq<Segment>, events: seq<Event>, j: int, alias: string) {
    0 <= j < |events| && events[j].order < |segments| && alias in segments[events[j].order].definitions
  }

  lemma {:induction false} AfterNamerefs(segments: seq<Segment>, s: State, events: seq<Event>)
    requires InRange(segments, events) && s.namerefs == map[]
    ensures After(segments, s, events).namerefs == NamerefsOf(segments, events)
    decreases |events|
  {
    hide PerformTo;
    if events != [] {
      var k := |events| - 1;
      AfterNamerefs(segments, s, events[..k]);
      var before := After(segments, s, events[..k]);
      var seg := segments[events[k].order];
      PerformKeepsNamerefs(before.(namerefs := before.namerefs + seg.definitions), seg, events[k].chosen, EffectCount(seg));
    }
  }

  lemma {:induction false} NamerefsOfWithin(segments: seq<Segment>, events: seq<Event>)
    requires NamerefsSimple(segments) && InRange(segments, events)
    ensures Within(NamerefsOf(segments, events), DefinedBy(segments, |segments|))
    decreases |events|
  {
    hide DefinedBy;
    if events != [] {
      var k := |events| - 1;
      NamerefsOfWithin(segments, events[..k]);
      forall alias | alias in segments[events[k].order].definitions
        ensures alias in DefinedBy(segments, |segments|)
        ensures DefinedBy(segments, |segments|)[alias] == segments[events[k].order].definitions[alias]
      {
        DefinedByHas(segments, |segments|, events[k].order, alias);
      }
    }
  }

  lemma {:induction false} NamerefsOfHas(segments: seq<Segment>, events: seq<Event>, alias: string)
    requires InRange(segments, events)
    ensures alias in NamerefsOf(segments, events) <==> exists j :: DefinesAt(segments, events, j, alias)
    decreases |events|
  {
    if events != [] {
      var k := |events| - 1;
      var before := events[..k];
      NamerefsOfHas(segments, before, alias);
      assert forall j :: DefinesAt(segments, before, j, alias) ==> DefinesAt(segments, events, j, alias);
      assert forall j :: DefinesAt(segments, events, j, alias) ==>
        DefinesAt(segments, before, j, alias) || (j == k && alias in segments[events[k].order].definitions);
      assert DefinesAt(segments, events, k, alias) <==> alias in segments[events[k].order].definitions;
    }
  }

  lemma NamerefsWithin(segments: seq<Segment>, s: State, events: seq<Event>)
    requires NamerefsSimple(segments) && s.namerefs == map[] && InRange(segments, events)
    ensures var after := After(segments, s, events).namerefs;
      && Within(after, DefinedBy(segments, |segments|))
      && forall alias :: alias in after <==> exists j :: DefinesAt(segments, events, j, alias)
  {
    hide After, DefinedBy, NamerefsOf, DefinesAt, NamerefsSimple;
    AfterNamerefs(segments, s, events);
    NamerefsOfWithin(segments, events);
    forall alias ensures alias in NamerefsOf(segments, events) <==> exists j :: DefinesAt(segments, events, j, alias) {
      NamerefsOfHas(segments, events, alias);
    }
  }

  lemma RunPrefix(segments: seq<Segment>, events: seq<Event>, k: nat)
    requires ValidRun(segments, events) && k <= |events|
    ensures ValidRun(segments, events[..k])
  {
    forall i | 0 <= i < k ensures ValidAt(segments, events[..k], i) {
      assert events[..k][..i] == events[..i];
      assert ValidAt(segments, events, i);
    }
  }

  /** The namerefs in force when an uncontrolled segment has run are at least those defined up to it. */
  lemma NamerefsInForce(segments: seq<Segment>, s: State, events: seq<Event>, order: nat)
    requires NamerefsSimple(segments) && s.namerefs == map[] && ValidRun(segments, events)
    requires order <= |segments| && forall k :: 0 <= k < order && !segments[k].controlled ==> Happened(events, k)
    ensures Within(DefinedBy(segments, order), After(segments, s, events).namerefs)
  {
    hide After, DefinedBy;
    NamerefsWithin(segments, s, events);
    var after := After(segments, s, events).namerefs;
    forall alias | alias in DefinedBy(segments, order)
      ensures alias in after && after[alias] == DefinedBy(segments, order)[alias] {
      DefinedByOnly(segments, order, alias);
      var k :| 0 <= k < order && alias in segments[k].definitions;
      DefinedByHas(segments, order, k, alias);
      DefinedByHas(segments, |segments|, k, alias);
      assert Happened(events, k);
      var j :| 0 <= j < |events| && events[j].order == k;
      assert DefinesAt(segments, events, j, alias);
    }
  }

  lemma HappenedLater(events: seq<Event>, j: nat, i: nat, order: nat)
    requires j <= i <= |events|
    ensures Happened(events[..j], order) ==> Happened(events[..i], order)
  {
    assert forall h :: 0 <= h < j ==> events[..j][h] == events[..i][h];
  }

  /** When an uncontrolled segment is about to run, exactly the namerefs defined before it are in force. */
  lemma NamerefsExact(segments: seq<Segment>, s: State, events: seq<Event>, i: nat)
    requires NamerefsSimple(segments) && s.namerefs == map[] && ValidRun(segments, events) && i < |events|
    requires !segments[events[i].order].controlled
    ensures ValidRun(segments, events[..i])
    ensures After(segments, s, events[..i]).namerefs == DefinedBy(segments, events[i].order)
  {
    hide After, DefinedBy;
    var order := events[i].order;
    RunPrefix(segments, events, i);
    assert ValidAt(segments, events, i);
    NamerefsInForce(segments, s, events[..i], order);
    NamerefsWithin(segments, s, events[..i]);
    var after := After(segments, s, events[..i]).namerefs;
    forall alias | alias in after ensures alias in DefinedBy(segments, order) {
      var j :| DefinesAt(segments, events[..i], j, alias);
      var m := events[j].order;
      assert events[..i][j].order == m;
      assert Happened(events[..i], m);
      assert ValidAt(segments, events, j);
      HappenedLater(events, j, i, order);
      DefinedByHas(segments, order, m, alias);
    }
  }

  /** The segment and effect behind a variable's only occurrence. */
  ghost predicate OnlyWriter(segments: seq<Segment>, references: References, name: string, k: nat, i: nat) {
    && k < |segments| && i < EffectCount(segments[k])
    && EffectAt(segments[k], i).Assign? && EffectAt(segments[k], i).name !in segments[k].definitions
    && BookedName(segments[k], references, EffectAt(segments[k], i)) == name
    && (forall m :: 0 <= m < |segments| && m != k ==>
          SegmentOccurrences(segments[m], references, m, name, EffectCount(segments[m])) == [])
    && (forall j :: 0 <= j < EffectCount(segments[k]) && j != i ==>
          BookedName(segments[k], references, EffectAt(segments[k], j)) != name)
  }

  lemma {:induction false} OnlySegment(segments: seq<Segment>, references: References, name: string, n: nat) returns (k: nat)
    requires n <= |segments| && |Occurrences(segments, references, name, n)| == 1
    ensures k < n
    ensures SegmentOccurrences(segments[k], references, k, name, EffectCount(segments[k]))
         == Occurrences(segments, references, name, n)
    ensures forall m :: 0 <= m < n && m != k ==>
      SegmentOccurrences(segments[m], references, m, name, EffectCount(segments[m])) == []
  {
    hide SegmentOccurrences;
    var last := SegmentOccurrences(segments[n - 1], references, n - 1, name, EffectCount(segments[n - 1]));
    if |last| == 1 {
      k := n - 1;
      NoOccurrences(segments, references, name, n - 1);
    } else {
      k := OnlySegment(segments, references, name, n - 1);
    }
  }

  lemma {:induction false} NoOccurrences(segments: seq<Segment>, references: References, name: string, n: nat)
    requires n <= |segments| && Occurrences(segments, references, name, n) == []
    ensures forall m :: 0 <= m < n ==>
      SegmentOccurrences(segments[m], references, m, name, EffectCount(segments[m])) == []
  {
    hide SegmentOccurrences;
    if n > 0 { NoOccurrences(segments, references, name, n - 1); }
  }

  lemma WriterOfConstant(segments: seq<Segment>, references: References, name: string, uses: seq<nat>, value: string)
      returns (k: nat, i: nat)
    requires !Defined(segments, name)
    requires LiteralAssignment(Occurrences(segments, references, name, |segments|), uses) == Some(value)
    ensures k < |segments| && i < EffectCount(segments[k])
    ensures OnlyWriter(segments, references, name, k, i) && EffectAt(segments[k], i).text == value && Static(value)
    ensures !segments[k].controlled && forall u :: u in uses ==> k < u
  {
    hide SegmentOccurrences, Occurrences, Static;
    k := OnlySegment(segments, references, name, |segments|);
    i := OnlyBooked(segments[k], references, k, name, EffectCount(segments[k]));
  }

  ghost predicate Reaches(segments: seq<Segment>, name: string, k: nat, i: nat)
    requires k < |segments| && i < EffectCount(segments[k])
  {
    EndsAt(DefinedBy(segments, k + 1), EffectAt(segments[k], i).name, name)
  }

  /** Until its only writer has run a variable keeps its inherited value; afterwards
      it holds the written text, if the writer's name reaches it by then. */
  lemma {:induction false} CellAlong(segments: seq<Segment>, s: State, events: seq<Event>, references: References,
                                     name: string, k: nat, i: nat)
    requires NamerefsSimple(segments) && s.namerefs == map[] && ValidRun(segments, events)
    requires Compressed(DefinedBy(segments, |segments|), references) && !Defined(segments, name)
    requires OnlyWriter(segments, references, name, k, i) && !segments[k].controlled
    requires Static(EffectAt(segments[k], i).text)
    ensures Cell(After(segments, s, events), name)
         == if Happened(events, k) && Reaches(segments, name, k, i) then EffectAt(segments[k], i).text else Cell(s, name)
    decreases |events|
  {
    hide Execute, DefinedBy, Compressed, Static, OnlyWriter, Cell;
    if events != [] {
      var n := |events| - 1;
      var order := events[n].order;
      RunPrefix(segments, events, n);
      CellAlong(segments, s, events[..n], references, name, k, i);
      HappenedNext(events, k);
      CellStep(segments, s, events, references, name, k, i);
    }
  }

  lemma HappenedNext(events: seq<Event>, k: nat)
    requires events != []
    ensures Happened(events, k) <==> Happened(events[..|events| - 1], k) || events[|events| - 1].order == k
  {
    var before := events[..|events| - 1];
    assert forall j :: 0 <= j < |before| ==> before[j] == events[j];
  }

  lemma CellStep(segments: seq<Segment>, s: State, events: seq<Event>, references: References,
                 name: string, k: nat, i: nat)
    requires NamerefsSimple(segments) && s.namerefs == map[] && ValidRun(segments, events) && events != []
    requires Compressed(DefinedBy(segments, |segments|), references) && !Defined(segments, name)
    requires OnlyWriter(segments, references, name, k, i) && !segments[k].controlled
    requires Static(EffectAt(segments[k], i).text)
    ensures var n := |events| - 1; var before := After(segments, s, events[..n]);
      Cell(After(segments, s, events), name)
      == if events[n].order != k then Cell(before, name)
         else if Reaches(segments, name, k, i) then EffectAt(segments[k], i).text else Cell(before, name)
  {
    hide PerformTo, Compressed, Static, Cell, Occurrences, SegmentOccurrences, BookedName;
    var n := |events| - 1;
    var seg := segments[events[n].order];
    var all := DefinedBy(segments, |segments|);
    UndefinedStaysOut(segments, |segments|, name);
    RunPrefix(segments, events, n);
    NamerefsWithin(segments, s, events[..n]);
    var before := After(segments, s, events[..n]);
    forall alias | alias in seg.definitions ensures alias in all && all[alias] == seg.definitions[alias] {
      DefinedByHas(segments, |segments|, events[n].order, alias);
    }
    if events[n].order == k {
      NamerefsExact(segments, s, events, n);
      ExecuteConstant(before, all, references, seg, events[n].chosen, i, name);
      DenotedIffEnds(DefinedBy(segments, k + 1), EffectAt(seg, i).name, name);
    } else {
      ExecuteElsewhere(before, all, references, seg, events[n].chosen, events[n].order, name);
    }
  }

  lemma DenotedIffEnds(namerefs: References, x: string, y: string)
    ensures Denoted(namerefs, x) == Some(y) <==> EndsAt(namerefs, x, y)
  {
    if EndsAt(namerefs, x, y) {
      assert Ends(namerefs, x);
      SinkUnique(namerefs, x, y, Denoted(namerefs, x).value);
    }
  }

  lemma ExpandPlain(segments: seq<Segment>, s: State, events: seq<Event>, name: string)
    requires NamerefsSimple(segments) && s.namerefs == map[] && ValidRun(segments, events) && !Defined(segments, name)
    ensures Expand(After(segments, s, events), name) == Cell(After(segments, s, events), name)
  {
    hide After, DefinedBy;
    var namerefs := After(segments, s, events).namerefs;
    NamerefsWithin(segments, s, events);
    UndefinedStaysOut(segments, |segments|, name);
    EndsAtSink(namerefs, name);
    DenotedIffEnds(namerefs, name, name);
  }

  /** The value a variable has whenever a run reaches one of the given segments. */
  ghost predicate HoldsAtUses(segments: seq<Segment>, name: string, uses: seq<nat>, value: string) {
    forall s: State, events: seq<Event>, i: nat ::
      s.namerefs == map[] && ValidRun(segments, events) && i < |events| && events[i].order in uses
      ==> HoldsAt(segments, s, events, i, name, value)
  }

  ghost predicate HoldsAt(segments: seq<Segment>, s: State, events: seq<Event>, i: nat, name: string, value: string)
    requires ValidRun(segments, events) && i < |events|
  {
    Expand(After(segments, s, events[..i]), name) == value
  }

  /** A literal value the analysis gives to a variable that is no nameref is the
      value every run sees at every use, exactly when the name it was assigned
      through reaches the variable by the namerefs defined up to that point. */
  lemma ConstantExact(segments: seq<Segment>, declared: References, references: References,
                      name: string, uses: seq<nat>, value: string) returns (k: nat, i: nat)
    requires NamerefsSimple(segments) && DeclaredMap(segments, declared) && Compressed(declared, references)
    requires !Defined(segments, name) && uses != [] && forall u :: u in uses ==> u < |segments|
    requires LiteralAssignment(Occurrences(segments, references, name, |segments|), uses) == Some(value)
    ensures k < |segments| && i < EffectCount(segments[k])
    ensures OnlyWriter(segments, references, name, k, i) && EffectAt(segments[k], i).text == value
    ensures HoldsAtUses(segments, name, uses, value) <==> Reaches(segments, name, k, i)
  {
    hide After, Compressed, DeclaredMap, Occurrences, LiteralAssignment, Static, OnlyWriter, ValidRun, Reaches;
    DeclaredIsDefined(segments, declared);
    k, i := WriterOfConstant(segments, references, name, uses, value);
    forall s: State, events: seq<Event>, e: nat | s.namerefs == map[] && ValidRun(segments, events)
        && e < |events| && events[e].order in uses && Reaches(segments, name, k, i)
      ensures HoldsAt(segments, s, events, e, name, value)
    {
      ConstantAtUse(segments, s, events, e, references, name, k, i);
    }
    if !Reaches(segments, name, k, i) {
      assert uses[0] in uses;
      var s, events, e := ConstantMissed(segments, references, name, uses[0], k, i);
    }
  }

  lemma ConstantAtUse(segments: seq<Segment>, s: State, events: seq<Event>, e: nat, references: References,
                      name: string, k: nat, i: nat)
    requires NamerefsSimple(segments) && s.namerefs == map[] && ValidRun(segments, events)
    requires Compressed(DefinedBy(segments, |segments|), references) && !Defined(segments, name)
    requires OnlyWriter(segments, references, name, k, i) && !segments[k].controlled
    requires Static(EffectAt(segments[k], i).text) && Reaches(segments, name, k, i)
    requires e < |events| && k < events[e].order
    ensures HoldsAt(segments, s, events, e, name, EffectAt(segments[k], i).text)
  {
    hide After, Compressed, Static, OnlyWriter, Reaches;
    RunPrefix(segments, events, e);
    assert ValidAt(segments, events, e);
    CellAlong(segments, s, events[..e], references, name, k, i);
    ExpandPlain(segments, s, events[..e], name);
  }

  /** The uncontrolled segments before n, once each. */
  function Straight(segments: seq<Segment>, n: nat): seq<Event>
    requires n <= |segments|
  {
    if n == 0 then [] else
      Straight(segments, n - 1) + if segments[n - 1].controlled then [] else [Event(n - 1, [])]
  }

  lemma {:induction false} StraightHappened(segments: seq<Segment>, n: nat, k: nat)
    requires n <= |segments|
    ensures Happened(Straight(segments, n), k) <==> k < n && !segments[k].controlled
  {
    if n > 0 {
      hide Happened;
      var before := Straight(segments, n - 1);
      StraightHappened(segments, n - 1, k);
      if segments[n - 1].controlled {
        assert before + [] == before;
      } else {
        var longer := before + [Event(n - 1, [])];
        assert longer[..|longer| - 1] == before;
        HappenedNext(longer, k);
      }
    }
  }

  lemma {:induction false} StraightRun(segments: seq<Segment>, n: nat)
    requires n <= |segments|
    ensures ValidRun(segments, Straight(segments, n))
  {
    if n > 0 {
      StraightRun(segments, n - 1);
      assert Straight(segments, n - 1) + [] == Straight(segments, n - 1);
      if !segments[n - 1].controlled { StraightNext(segments, n - 1); }
    }
  }

  lemma StraightNext(segments: seq<Segment>, n: nat)
    requires n < |segments| && ValidRun(segments, Straight(segments, n))
    ensures ValidRun(segments, Straight(segments, n) + [Event(n, [])])
  {
    hide ValidRun, Happened, Straight;
    var before := Straight(segments, n);
    forall k | 0 <= k < n && !segments[k].controlled ensures Happened(before, k) { StraightHappened(segments, n, k); }
    StraightHappened(segments, n, n);
    RunExtended(segments, before, Event(n, []));
  }

  lemma RunExtended(segments: seq<Segment>, events: seq<Event>, event: Event)
    requires ValidRun(segments, events) && Ready(segments, events, event.order)
    ensures ValidRun(segments, events + [event])
  {
    hide Ready;
    var longer := events + [event];
    ReadyInRange(segments, events, event.order);
    forall i | 0 <= i < |longer| ensures ValidAt(segments, longer, i) {
      if i < |events| {
        assert longer[..i] == events[..i];
        assert ValidAt(segments, events, i);
      } else {
        assert longer[..i] == events;
      }
    }
  }

  lemma ReadyInRange(segments: seq<Segment>, before: seq<Event>, order: nat)
    requires Ready(segments, before, order)
    ensures order < |segments|
  {
  }

  /** Otherwise a straight run from another inherited value shows the constant to be wrong. */
  lemma ConstantMissed(segments: seq<Segment>, references: References, name: string, u: nat, k: nat, i: nat)
      returns (s: State, events: seq<Event>, e: nat)
    requires NamerefsSimple(segments) && Compressed(DefinedBy(segments, |segments|), references)
    requires !Defined(segments, name) && u < |segments|
    requires OnlyWriter(segments, references, name, k, i) && !segments[k].controlled
    requires Static(EffectAt(segments[k], i).text) && !Reaches(segments, name, k, i)
    ensures s.namerefs == map[] && ValidRun(segments, events) && e < |events| && events[e].order == u
    ensures !HoldsAt(segments, s, events, e, name, EffectAt(segments[k], i).text)
  {
    hide Compressed, Static, Reaches, After, ValidRun, Happened, DefinedBy, NamerefsSimple, Straight, Defined, OnlyWriter;
    OnlyWriterInRange(segments, references, name, k, i);
    var value := EffectAt(segments[k], i).text;
    var before := Straight(segments, u);
    StraightRun(segments, u);
    StraightNext(segments, u);
    s, events, e := State(map[name := value + "x"], map[]), before + [Event(u, [])], |before|;
    assert |value + "x"| == |value| + 1;
    assert events[..e] == before;
    CellAlong(segments, s, before, references, name, k, i);
    ExpandPlain(segments, s, before, name);
  }

  lemma OnlyWriterInRange(segments: seq<Segment>, references: References, name: string, k: nat, i: nat)
    requires OnlyWriter(segments, references, name, k, i)
    ensures k < |segments| && i < EffectCount(segments[k]) && EffectAt(segments[k], i).Assign?
  {
  }

  /** Assigning a variable by its own name always reaches it. */
  lemma OwnNameReaches(segments: seq<Segment>, name: string, k: nat, i: nat)
    requires k < |segments| && i < EffectCount(segments[k])
    requires !Defined(segments, name) && EffectAt(segments[k], i).name == name
    ensures Reaches(segments, name, k, i)
  {
    UndefinedStaysOut(segments, k + 1, name);
    EndsAtSink(DefinedBy(segments, k + 1), name);
  }

  /** An assignment through an alias declared only later: the text goes to the
      variable `r`, and the analysis gives it to `t`. */
  lemma EarlyAliasMisjudged()
    ensures var segments := EARLY_ALIAS; var references := map["r" := "t"];
      && NamerefsSimple(segments) && Compressed(DefinedBy(segments, 3), references) && !Defined(segments, "t")
      && LiteralAssignment(Occurrences(segments, references, "t", 3), [2]) == Some("v")
      && !Reaches(segments, "t", 0, 0)
  {
    var segments, references := EARLY_ALIAS, map["r" := "t"];
    assert DefinedBy(segments, 1) == map[] && DefinedBy(segments, 2) == references && DefinedBy(segments, 3) == references;
    NamerefChain(references);
    EndsAtSink(DefinedBy(segments, 1), "r");
    assert EffectAt(segments[0], 0) == Assign("r", "v");
    assert SegmentOccurrences(segments[0], references, 0, "t", 0) == [];
    assert SegmentOccurrences(segments[0], references, 0, "t", 1) == [Occurrence("v", false, 0)];
    assert Occurrences(segments, references, "t", 0) == [];
    assert Occurrences(segments, references, "t", 1) == [Occurrence("v", false, 0)];
    assert Occurrences(segments, references, "t", 2) == [Occurrence("v", false, 0)];
    assert Occurrences(segments, references, "t", 3) == [Occurrence("v", false, 0)];
  }

  /** `r=v`, then `declare -n r=t`, then a use. */
  const EARLY_ALIAS := [
    Segment([("r", "v")], map[], [], false), Segment([], map["r" := "t"], [], false), Segment([], map[], [], false)
  ]

  /** A nameref itself is misjudged: after `declare -n r=t` the analysis gives
      r the text `t`, while `$r` expands to whatever t holds. */
  lemma NamerefUseMisjudged(s: State, chosen: seq<string>)
    requires s.namerefs == map[]
    ensures var define := Segment([("r", "t")], map["r" := "t"], [], false); var references := map["r" := "t"];
      && Compressed(references, references) && NamerefsSimple([define])
      && LiteralAssignment(Occurrences([define], references, "r", 1), [1]) == Some("t")
      && Expand(Execute(s, define, chosen), "r") == Cell(s, "t")
  {
    var define := Segment([("r", "t")], map["r" := "t"], [], false);
    var references := map["r" := "t"];
    NamerefChain(references);
    assert SegmentOccurrences(define, references, 0, "r", 0) == [];
    assert EffectAt(define, 0) == Assign("r", "t");
    assert SegmentOccurrences(define, references, 0, "r", 1) == [Occurrence("t", false, 0)];
    assert Occurrences([define], references, "r", 1) == [Occurrence("t", false, 0)];
    DefinitionWritesNothing(s, define, chosen);
    assert s.namerefs + define.definitions == references;
    DenotedIffEnds(references, "r", "t");
  }

  lemma DefinitionWritesNothing(s: State, seg: Segment, chosen: seq<string>)
    requires EffectCount(seg) == 1 && EffectAt(seg, 0).Assign? && EffectAt(seg, 0).name in seg.definitions
    ensures Execute(s, seg, chosen) == s.(namerefs := s.namerefs + seg.definitions)
  {
    assert PerformTo(s.(namerefs := s.namerefs + seg.definitions), seg, chosen, 0)
        == s.(namerefs := s.namerefs + seg.definitions);
  }

  lemma NamerefChain(references: References)
    requires references == map["r" := "t"]
    ensures EndsAt(references, "r", "t") && Compressed(references, references)
  {
    assert "r" != "t";
    EndsAtSink(references, "t");
    EndsAtNext(references, "r", "t");
    forall y | EndsAt(references, "r", y) ensures y == "t" { SinkUnique(references, "r", y, "t"); }
    assert Ends(references, "r");
  }
}
