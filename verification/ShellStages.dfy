/** When a variable of a shell script holds a given text in every run: a
    condition on the script alone, exact for namerefs and plain variables alike. */
module ShellStages {
  import opened Wrappers
  import opened Namerefs
  import opened ShellConstants
  import opened ShellRuns

  // ---- Stages of a run ----------------------------------------------------

  /** Exactly the uncontrolled segments before n have run, and nothing from n on. */
  ghost predicate AtStage(segments: seq<Segment>, events: seq<Event>, n: nat) {
    && n <= |segments| && ValidRun(segments, events)
    && (forall i :: 0 <= i < |events| ==> events[i].order < n)
    && forall k :: 0 <= k < n && !segments[k].controlled ==> Happened(events, k)
  }

  lemma StageNamerefs(segments: seq<Segment>, s: State, events: seq<Event>, n: nat)
    requires NamerefsSimple(segments) && s.namerefs == map[] && AtStage(segments, events, n)
    ensures After(segments, s, events).namerefs == DefinedBy(segments, n)
  {
    hide After, DefinedBy, Happened;
    NamerefsInForce(segments, s, events, n);
    NamerefsWithin(segments, s, events);
    var after := After(segments, s, events).namerefs;
    forall alias | alias in after ensures alias in DefinedBy(segments, n) {
      var j :| DefinesAt(segments, events, j, alias);
      DefinedByHas(segments, n, events[j].order, alias);
    }
  }

  lemma HappenedBefore(events: seq<Event>, event: Event, k: nat)
    ensures Happened(events + [event], k) <==> Happened(events, k) || event.order == k
  {
    assert (events + [event])[..|events + [event]| - 1] == events;
    HappenedNext(events + [event], k);
  }

  /** A controlled segment may run again at any later stage. */
  lemma StageRepeats(segments: seq<Segment>, events: seq<Event>, n: nat, event: Event)
    requires AtStage(segments, events, n) && event.order < n && segments[event.order].controlled
    ensures AtStage(segments, events + [event], n)
  {
    hide ValidRun, Happened;
    RunExtended(segments, events, event);
    forall k | 0 <= k < n && !segments[k].controlled ensures Happened(events + [event], k) {
      HappenedBefore(events, event, k);
    }
  }

  /** An uncontrolled segment leads to the next stage. */
  lemma StageAdvances(segments: seq<Segment>, events: seq<Event>, event: Event)
    requires AtStage(segments, events, event.order) && event.order < |segments| && !segments[event.order].controlled
    ensures AtStage(segments, events + [event], event.order + 1)
  {
    hide ValidRun;
    var k := event.order;
    assert !Happened(events, k);
    RunExtended(segments, events, event);
    forall j | 0 <= j < k + 1 && !segments[j].controlled ensures Happened(events + [event], j) {
      HappenedBefore(events, event, j);
    }
  }

  lemma StageWidens(segments: seq<Segment>, events: seq<Event>, n: nat)
    requires AtStage(segments, events, n) && n < |segments| && segments[n].controlled
    ensures AtStage(segments, events, n + 1)
  {
    hide ValidRun, Happened;
  }

  lemma {:induction false} StraightStage(segments: seq<Segment>, n: nat)
    requires n <= |segments|
    ensures AtStage(segments, Straight(segments, n), n)
    decreases n
  {
    hide ValidRun, Happened;
    if n == 0 {
      StraightRun(segments, 0);
    } else {
      StraightStage(segments, n - 1);
      var before := Straight(segments, n - 1);
      if segments[n - 1].controlled {
        assert before + [] == before;
        StageWidens(segments, before, n - 1);
      } else {
        StageAdvances(segments, before, Event(n - 1, []));
      }
    }
  }

  // ---- What one segment does to a variable --------------------------------

  datatype Wrote = Nothing | Fixed(text: string) | Anything

  ghost predicate Writes(seg: Segment, namerefs: References, effect: Effect, y: string) {
    !(effect.Assign? && effect.name in seg.definitions) && EndsAt(namerefs, effect.name, y)
  }

  /** The last write to y among the first n effects. */
  ghost function LastWrite(seg: Segment, namerefs: References, y: string, n: nat): Wrote
    requires n <= EffectCount(seg)
  {
    if n == 0 then Nothing else
      var effect := EffectAt(seg, n - 1);
      if !Writes(seg, namerefs, effect, y) then LastWrite(seg, namerefs, y, n - 1)
      else if effect.Assign? && Static(effect.text) then Fixed(effect.text)
      else Anything
  }

  ghost function Outcome(seg: Segment, namerefs: References, y: string): Wrote {
    LastWrite(seg, namerefs, y, EffectCount(seg))
  }

  lemma PerformWrites(s: State, seg: Segment, effect: Effect, chosen: string, y: string)
    ensures Cell(Perform(s, seg, effect, chosen), y)
         == if !Writes(seg, s.namerefs, effect, y) then Cell(s, y)
            else if effect.Assign? && Static(effect.text) then effect.text else chosen
  {
    hide Denoted, EndsAt, Static;
    DenotedIffEnds(s.namerefs, effect.name, y);
  }

  ghost predicate AllAre(chosen: seq<string>, n: nat, c: string) {
    n <= |chosen| && forall i :: 0 <= i < n ==> chosen[i] == c
  }

  lemma {:induction false} PerformLast(s: State, seg: Segment, chosen: seq<string>, n: nat, y: string)
    requires n <= EffectCount(seg)
    ensures var cell := Cell(PerformTo(s, seg, chosen, n), y);
      match LastWrite(seg, s.namerefs, y, n)
      case Nothing => cell == Cell(s, y)
      case Fixed(text) => cell == text
      case Anything => forall c :: AllAre(chosen, n, c) ==> cell == c
    decreases n
  {
    hide Perform, Cell, Writes, Static;
    if n > 0 {
      PerformLast(s, seg, chosen, n - 1, y);
      PerformKeepsNamerefs(s, seg, chosen, n - 1);
      assert forall c :: AllAre(chosen, n, c) ==> AllAre(chosen, n - 1, c) && chosen[n - 1] == c;
      PerformWrites(PerformTo(s, seg, chosen, n - 1), seg, EffectAt(seg, n - 1),
                    if n - 1 < |chosen| then chosen[n - 1] else "", y);
    }
  }

  function Always(seg: Segment, c: string): seq<string> {
    seq(EffectCount(seg), i => c)
  }

  /** A run of a segment leaves y alone, fixes it, or can leave anything in it. */
  lemma ExecuteOutcome(s: State, seg: Segment, chosen: seq<string>, y: string)
    ensures match Outcome(seg, s.namerefs + seg.definitions, y)
      case Nothing => Cell(Execute(s, seg, chosen), y) == Cell(s, y)
      case Fixed(text) => Cell(Execute(s, seg, chosen), y) == text
      case Anything => forall c :: chosen == Always(seg, c) ==> Cell(Execute(s, seg, chosen), y) == c
  {
    hide PerformTo, LastWrite;
    assert forall c :: chosen == Always(seg, c) ==> AllAre(chosen, EffectCount(seg), c);
    PerformLast(s.(namerefs := s.namerefs + seg.definitions), seg, chosen, EffectCount(seg), y);
  }

  // ---- Holding in every run -----------------------------------------------

  /** Running the segment cannot take the value away. */
  ghost predicate Keeps(seg: Segment, namerefs: References, y: string, value: string) {
    Outcome(seg, namerefs, y) == Nothing || Outcome(seg, namerefs, y) == Fixed(value)
  }

  ghost predicate OthersKeep(segments: seq<Segment>, y: string, n: nat, value: string)
    requires n <= |segments|
  {
    forall j :: 0 <= j < n && segments[j].controlled ==> Keeps(segments[j], DefinedBy(segments, n), y, value)
  }

  /** y holds the value in every run at stage n, read off the script: the last
      uncontrolled segment to write y writes the value, and no controlled one
      can take it away from then on. */
  ghost predicate MustHold(segments: seq<Segment>, y: string, n: nat, value: string)
    requires n <= |segments|
  {
    n > 0 && OthersKeep(segments, y, n, value) &&
    match if segments[n - 1].controlled then Nothing else Outcome(segments[n - 1], DefinedBy(segments, n), y)
    case Nothing => MustHold(segments, y, n - 1, value)
    case Fixed(text) => text == value
    case Anything => false
  }

  /** One event of a run, seen from its stage. */
  lemma StageStep(segments: seq<Segment>, s: State, events: seq<Event>, n: nat, event: Event, y: string)
    requires NamerefsSimple(segments) && s.namerefs == map[] && AtStage(segments, events, n)
    requires event.order < |segments| && (segments[event.order].controlled || event.order == n)
    requires InRange(segments, events + [event])
    ensures var seg := segments[event.order];
      var namerefs := DefinedBy(segments, if seg.controlled then n else n + 1);
      var after := After(segments, s, events + [event]); var before := After(segments, s, events);
      match Outcome(seg, namerefs, y)
      case Nothing => Cell(after, y) == Cell(before, y)
      case Fixed(text) => Cell(after, y) == text
      case Anything => forall c :: event.chosen == Always(seg, c) ==> Cell(after, y) == c
  {
    hide AtStage, Execute, Outcome, Cell, Always;
    var seg := segments[event.order];
    StageInRange(segments, events, n);
    StageNamerefs(segments, s, events, n);
    ExecuteOutcome(After(segments, s, events), seg, event.chosen, y);
    assert (events + [event])[..|events + [event]| - 1] == events;
    if seg.controlled {
      assert seg.definitions == map[];
      assert DefinedBy(segments, n) + seg.definitions == DefinedBy(segments, n);
    }
  }

  /** The last event of a run at stage n is controlled, or it is the one that led to the stage. */
  lemma LastEvent(segments: seq<Segment>, events: seq<Event>, n: nat)
    requires AtStage(segments, events, n) && n > 0
    requires !(segments[n - 1].controlled && AtStage(segments, events, n - 1))
    ensures events != []
    ensures var k := |events| - 1; var e := events[k].order;
      if segments[e].controlled then AtStage(segments, events[..k], n)
      else e == n - 1 && AtStage(segments, events[..k], n - 1)
  {
    assert events != [];
    var k := |events| - 1;
    var e := events[k].order;
    var before := events[..k];
    assert events == before + [events[k]];
    RunPrefix(segments, events, k);
    assert ValidAt(segments, events, k);
    forall j ensures Happened(events, j) <==> Happened(before, j) || e == j { HappenedBefore(before, events[k], j); }
    hide Happened, ValidRun;
    if !segments[e].controlled {
      forall i | 0 <= i < k ensures before[i].order < e { NotYetPassed(segments, events, i, k); }
      if e < n - 1 {
        assert Happened(events, n - 1) ==> Happened(before, n - 1);
        if Happened(before, n - 1) { OrderFound(before, n - 1); }
      }
    }
  }

  lemma OrderFound(events: seq<Event>, k: nat)
    requires Happened(events, k)
    ensures exists i :: 0 <= i < |events| && events[i].order == k
  {
  }

  /** Before an uncontrolled segment only earlier segments have run. */
  lemma NotYetPassed(segments: seq<Segment>, events: seq<Event>, i: nat, k: nat)
    requires ValidRun(segments, events) && i < k < |events| && !segments[events[k].order].controlled
    ensures events[i].order < events[k].order
  {
    assert ValidAt(segments, events, i) && ValidAt(segments, events, k);
    var e := events[k].order;
    assert events[..k][i].order == events[i].order;
    assert events[i].order != e || Happened(events[..k], e);
    if events[i].order > e {
      HappenedLater(events, i, k, e);
      assert false;
    }
  }

  lemma {:induction false} MustHoldSound(segments: seq<Segment>, s: State, events: seq<Event>, y: string, n: nat, value: string)
    requires NamerefsSimple(segments) && s.namerefs == map[] && AtStage(segments, events, n)
    requires MustHold(segments, y, n, value)
    ensures Cell(After(segments, s, events), y) == value
    decreases |events| + n
  {
    hide AtStage, After, Cell, Outcome, DefinedBy;
    StageInRange(segments, events, n);
    if segments[n - 1].controlled && AtStage(segments, events, n - 1) {
      MustHoldSound(segments, s, events, y, n - 1, value);
    } else {
      LastEvent(segments, events, n);
      var k := |events| - 1;
      var before, event := events[..k], events[k];
      assert events == before + [event];
      if segments[event.order].controlled {
        MustHoldSound(segments, s, before, y, n, value);
        StageStep(segments, s, before, n, event, y);
        assert Keeps(segments[event.order], DefinedBy(segments, n), y, value);
      } else {
        StageStep(segments, s, before, n - 1, event, y);
        if Outcome(segments[n - 1], DefinedBy(segments, n), y) == Nothing {
          MustHoldSound(segments, s, before, y, n - 1, value);
        }
      }
    }
  }

  lemma StageInRange(segments: seq<Segment>, events: seq<Event>, n: nat)
    requires AtStage(segments, events, n)
    ensures InRange(segments, events) && n <= |segments| && forall i :: 0 <= i < |events| ==> events[i].order < n
  {
  }

  /** Otherwise some run at the stage, from some inherited value, shows another text. */
  lemma {:induction false} MustHoldComplete(segments: seq<Segment>, y: string, n: nat, value: string)
      returns (s: State, events: seq<Event>)
    requires NamerefsSimple(segments) && n <= |segments| && !MustHold(segments, y, n, value)
    ensures s.namerefs == map[] && AtStage(segments, events, n) && InRange(segments, events)
    ensures Cell(After(segments, s, events), y) != value
    decreases n
  {
    hide AtStage, After, Cell, Outcome, DefinedBy, Straight;
    if n == 0 {
      s, events := Inherited(y, value), [];
      StraightStage(segments, 0);
      NothingRun(segments, y, value);
    } else if !OthersKeep(segments, y, n, value) {
      var j :| 0 <= j < n && segments[j].controlled && !Keeps(segments[j], DefinedBy(segments, n), y, value);
      StraightStage(segments, n);
      s, events := Spoiled(segments, y, value, Straight(segments, n), n, j);
      StageRepeats(segments, Straight(segments, n), n, events[|events| - 1]);
    } else if segments[n - 1].controlled {
      s, events := MustHoldComplete(segments, y, n - 1, value);
      StageWidens(segments, events, n - 1);
    } else if Keeps(segments[n - 1], DefinedBy(segments, n), y, value) {
      var before;
      s, before := MustHoldComplete(segments, y, n - 1, value);
      var event := Event(n - 1, []);
      events := before + [event];
      StageAdvances(segments, before, event);
      StageInRange(segments, events, n);
      StageStep(segments, s, before, n - 1, event, y);
    } else {
      StraightStage(segments, n - 1);
      s, events := Spoiled(segments, y, value, Straight(segments, n - 1), n - 1, n - 1);
      StageAdvances(segments, Straight(segments, n - 1), events[|events| - 1]);
    }
  }

  function Inherited(y: string, value: string): State {
    State(map[y := value + "x"], map[])
  }

  lemma NothingRun(segments: seq<Segment>, y: string, value: string)
    ensures AtStage(segments, [], 0) && Cell(After(segments, Inherited(y, value), []), y) != value
  {
    assert |value + "x"| == |value| + 1;
  }

  /** A segment that can take the value away does so. */
  lemma Spoiled(segments: seq<Segment>, y: string, value: string, before: seq<Event>, n: nat, j: nat)
      returns (s: State, events: seq<Event>)
    requires NamerefsSimple(segments) && AtStage(segments, before, n)
    requires j < |segments| && (segments[j].controlled || j == n)
    requires !Keeps(segments[j], DefinedBy(segments, if segments[j].controlled then n else n + 1), y, value)
    ensures s.namerefs == map[] && events == before + [Event(j, Always(segments[j], value + "x"))]
    ensures InRange(segments, events) && Cell(After(segments, s, events), y) != value
  {
    hide AtStage, After, Cell, Outcome, DefinedBy, Always;
    s, events := State(map[], map[]), before + [Event(j, Always(segments[j], value + "x"))];
    StageInRange(segments, before, n);
    StageStep(segments, s, before, n, events[|before|], y);
    assert |value + "x"| == |value| + 1;
  }

  // ---- Holding at every use -----------------------------------------------

  /** The name denotes, at the stage, a variable that must hold the value. */
  ghost predicate SinkHolds(segments: seq<Segment>, name: string, n: nat, value: string)
    requires n <= |segments|
  {
    exists y :: EndsAt(DefinedBy(segments, n), name, y) && MustHold(segments, y, n, value)
  }

  /** The stages at which a segment can be about to run. */
  predicate StageOf(segments: seq<Segment>, u: nat, n: nat) {
    u < |segments| && u <= n <= |segments| && (n == u || segments[u].controlled)
  }

  lemma StageReady(segments: seq<Segment>, events: seq<Event>, u: nat, n: nat, chosen: seq<string>)
    requires StageOf(segments, u, n) && AtStage(segments, events, n)
    ensures ValidRun(segments, events + [Event(u, chosen)])
  {
    hide ValidRun;
    RunExtended(segments, events, Event(u, chosen));
  }

  function Latest(events: seq<Event>, u: nat): (n: nat)
    ensures n >= u && forall i :: 0 <= i < |events| ==> events[i].order < n
    ensures n == u || exists i :: 0 <= i < |events| && events[i].order + 1 == n
  {
    if events == [] then u else
      var k := |events| - 1;
      var n := Latest(events[..k], u);
      assert forall i :: 0 <= i < k ==> events[i] == events[..k][i];
      if events[k].order < n then n else events[k].order + 1
  }

  /** Every run that reaches a segment is at one of its stages. */
  lemma StageFound(segments: seq<Segment>, events: seq<Event>, k: nat) returns (n: nat)
    requires ValidRun(segments, events) && k < |events|
    ensures StageOf(segments, events[k].order, n) && AtStage(segments, events[..k], n)
  {
    hide Happened;
    var u, before := events[k].order, events[..k];
    RunPrefix(segments, events, k);
    assert ValidAt(segments, events, k);
    n := Latest(before, u);
    if !segments[u].controlled {
      forall i | 0 <= i < k ensures before[i].order < u { NotYetPassed(segments, events, i, k); }
    }
    if n != u {
      var i :| 0 <= i < |before| && before[i].order + 1 == n;
      assert ValidAt(segments, before, i);
      forall j | 0 <= j < n && !segments[j].controlled ensures Happened(before, j) {
        if j < n - 1 { HappenedLater(before, i, k, j); assert before[..k] == before; } else { HappenedAt(before, i); }
      }
    }
    hide ValidRun;
  }

  lemma HappenedAt(events: seq<Event>, i: nat)
    requires i < |events|
    ensures Happened(events, events[i].order)
  {
  }

  /** What `$name` shows at a stage. */
  lemma StageExpands(segments: seq<Segment>, s: State, events: seq<Event>, name: string, n: nat)
    requires NamerefsSimple(segments) && s.namerefs == map[] && AtStage(segments, events, n)
    ensures InRange(segments, events)
    ensures forall y :: EndsAt(DefinedBy(segments, n), name, y) ==>
      Expand(After(segments, s, events), name) == Cell(After(segments, s, events), y)
    ensures !Ends(DefinedBy(segments, n), name) ==> Expand(After(segments, s, events), name) == ""
  {
    hide After, DefinedBy, Cell, EndsAt;
    StageInRange(segments, events, n);
    StageNamerefs(segments, s, events, n);
    forall y | EndsAt(DefinedBy(segments, n), name, y) ensures Denoted(DefinedBy(segments, n), name) == Some(y) {
      DenotedIffEnds(DefinedBy(segments, n), name, y);
    }
  }

  lemma StageSees(segments: seq<Segment>, s: State, events: seq<Event>, name: string, n: nat, value: string)
    requires NamerefsSimple(segments) && s.namerefs == map[] && AtStage(segments, events, n)
    requires SinkHolds(segments, name, n, value)
    ensures InRange(segments, events) && Expand(After(segments, s, events), name) == value
  {
    hide After, DefinedBy, Cell, EndsAt, MustHold, Expand;
    StageExpands(segments, s, events, name, n);
    var y :| EndsAt(DefinedBy(segments, n), name, y) && MustHold(segments, y, n, value);
    MustHoldSound(segments, s, events, y, n, value);
  }

  lemma StageMisses(segments: seq<Segment>, name: string, n: nat, value: string) returns (s: State, events: seq<Event>)
    requires NamerefsSimple(segments) && n <= |segments| && value != "" && !SinkHolds(segments, name, n, value)
    ensures s.namerefs == map[] && AtStage(segments, events, n) && InRange(segments, events)
    ensures Expand(After(segments, s, events), name) != value
  {
    hide After, DefinedBy, Cell, EndsAt, MustHold, Expand, AtStage;
    if y :| EndsAt(DefinedBy(segments, n), name, y) {
      s, events := MustHoldComplete(segments, y, n, value);
    } else {
      s, events := State(map[], map[]), Straight(segments, n);
      StraightStage(segments, n);
    }
    StageExpands(segments, s, events, name, n);
  }

  /** A text is what every run sees under a name whenever it reaches the
      segment exactly when, at each of the segment's stages, the variable the
      name then denotes must hold that text. */
  lemma HoldsAtUseIff(segments: seq<Segment>, name: string, u: nat, value: string)
    requires NamerefsSimple(segments) && u < |segments| && value != ""
    ensures HoldsAtUses(segments, name, [u], value)
      <==> forall n :: StageOf(segments, u, n) ==> SinkHolds(segments, name, n, value)
  {
    hide After, SinkHolds, Expand, ValidRun, AtStage;
    if forall n :: StageOf(segments, u, n) ==> SinkHolds(segments, name, n, value) {
      forall s: State, events: seq<Event>, i: nat | s.namerefs == map[] && ValidRun(segments, events)
          && i < |events| && events[i].order in [u]
        ensures HoldsAt(segments, s, events, i, name, value) {
        var n := StageFound(segments, events, i);
        StageSees(segments, s, events[..i], name, n, value);
      }
    }
    if n :| StageOf(segments, u, n) && !SinkHolds(segments, name, n, value) {
      var s, events := StageMisses(segments, name, n, value);
      StageReady(segments, events, u, n, []);
      var longer := events + [Event(u, [])];
      assert longer[..|events|] == events && longer[|events|].order == u;
      assert !HoldsAt(segments, s, longer, |events|, name, value);
    }
  }

  lemma HoldsAtEach(segments: seq<Segment>, name: string, uses: seq<nat>, value: string)
    ensures HoldsAtUses(segments, name, uses, value) <==> forall u :: u in uses ==> HoldsAtUses(segments, name, [u], value)
  {
    hide HoldsAt, ValidRun;
  }

  /** A constant the analysis gives to any name, nameref or not, is right in
      every run and at every use exactly when the script says so stage by stage. */
  lemma ConstantHoldsIff(segments: seq<Segment>, references: References, name: string, uses: seq<nat>, value: string)
    requires NamerefsSimple(segments) && forall u :: u in uses ==> u < |segments|
    requires LiteralAssignment(Occurrences(segments, references, name, |segments|), uses) == Some(value)
    ensures HoldsAtUses(segments, name, uses, value)
      <==> forall u, n :: u in uses && StageOf(segments, u, n) ==> SinkHolds(segments, name, n, value)
  {
    hide SinkHolds, HoldsAtUses, Occurrences;
    HoldsAtEach(segments, name, uses, value);
    forall u | u in uses ensures HoldsAtUses(segments, name, [u], value)
        <==> forall n :: StageOf(segments, u, n) ==> SinkHolds(segments, name, n, value) {
      HoldsAtUseIff(segments, name, u, value);
    }
  }

  // ---- Namerefs whose target nothing writes -------------------------------

  lemma {:induction false} NeverWritten(seg: Segment, all: References, references: References, namerefs: References,
                                        order: nat, y: string, n: nat)
    requires Within(namerefs, all) && Compressed(all, references) && y !in all && n <= EffectCount(seg)
    requires SegmentOccurrences(seg, references, order, y, EffectCount(seg)) == []
    ensures LastWrite(seg, namerefs, y, n) == Nothing
    decreases n
  {
    hide Compressed, Within, EndsAt, Denoted, BookedName, SegmentOccurrences;
    if n > 0 {
      NeverWritten(seg, all, references, namerefs, order, y, n - 1);
      NothingBooked(seg, references, order, y, EffectCount(seg));
      var effect := EffectAt(seg, n - 1);
      DenotedIffEnds(namerefs, effect.name, y);
      assert BookedName(seg, references, effect) != y;
      if Writes(seg, namerefs, effect, y) {
        WriteIsBooked(namerefs, all, references, effect.name, y);
        BookedPlain(seg, references, effect);
      }
    }
  }

  lemma BookedPlain(seg: Segment, references: References, effect: Effect)
    requires !(effect.Assign? && effect.name in seg.definitions)
    ensures BookedName(seg, references, effect) == Resolved(references, effect.name)
  {
  }

  lemma DefinedByWithin(segments: seq<Segment>, n: nat)
    requires NamerefsSimple(segments) && n <= |segments|
    ensures Within(DefinedBy(segments, n), DefinedBy(segments, |segments|))
  {
    hide DefinedBy;
    forall alias | alias in DefinedBy(segments, n)
      ensures alias in DefinedBy(segments, |segments|)
      ensures DefinedBy(segments, |segments|)[alias] == DefinedBy(segments, n)[alias] {
      DefinedByOnly(segments, n, alias);
      var k :| 0 <= k < n && alias in segments[k].definitions;
      DefinedByHas(segments, n, k, alias);
      DefinedByHas(segments, |segments|, k, alias);
    }
  }

  lemma {:induction false} UnwrittenNeverHolds(segments: seq<Segment>, references: References, y: string, n: nat, value: string)
    requires NamerefsSimple(segments) && Compressed(DefinedBy(segments, |segments|), references)
    requires !Defined(segments, y) && Occurrences(segments, references, y, |segments|) == [] && n <= |segments|
    ensures !MustHold(segments, y, n, value)
    decreases n
  {
    hide Compressed, Within, DefinedBy, Occurrences, SegmentOccurrences, LastWrite, Defined, OthersKeep;
    if n > 0 {
      UnwrittenNeverHolds(segments, references, y, n - 1, value);
      NoOccurrences(segments, references, y, |segments|);
      UndefinedStaysOut(segments, |segments|, y);
      DefinedByWithin(segments, n);
      NeverWritten(segments[n - 1], DefinedBy(segments, |segments|), references, DefinedBy(segments, n), n - 1, y,
                   EffectCount(segments[n - 1]));
    }
  }

  /** Whatever constant the analysis gives a nameref, it is wrong at every use
      at which the nameref leads to a variable the script never writes. */
  lemma UnwrittenTargetMisjudged(segments: seq<Segment>, declared: References, references: References,
                                 name: string, u: nat, y: string, value: string)
    requires NamerefsSimple(segments) && DeclaredMap(segments, declared) && Compressed(declared, references)
    requires u < |segments| && value != "" && EndsAt(DefinedBy(segments, u), name, y)
    requires !Defined(segments, y) && Occurrences(segments, references, y, |segments|) == []
    ensures !HoldsAtUses(segments, name, [u], value)
  {
    hide Compressed, DefinedBy, Occurrences, MustHold, EndsAt, Defined, DeclaredMap, HoldsAtUses;
    DeclaredIsDefined(segments, declared);
    UnwrittenNeverHolds(segments, references, y, u, value);
    forall z | EndsAt(DefinedBy(segments, u), name, z) ensures z == y { SinkUnique(DefinedBy(segments, u), name, z, y); }
    assert StageOf(segments, u, u) && !SinkHolds(segments, name, u, value);
    HoldsAtUseIff(segments, name, u, value);
  }
}
