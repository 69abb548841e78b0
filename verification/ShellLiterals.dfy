/** scripts/check_container_image_pins.py, _literal_shell_assignment: exactly
    when a variable is given a literal text, said of the segments alone. */
module ShellLiterals {
  import opened Wrappers
  import opened Namerefs
  import opened ShellConstants
  import opened ShellRuns

  /** With these references the name stands for variable y. */
  predicate Denotes(references: References, name: string, y: string) {
    (name in references && references[name] == y) || (name !in references && name == y)
  }

  /** The i-th assignment of segment k is one to the variable; an alias declared
      by the segment itself is assigned under its own name. */
  predicate Assigns(segments: seq<Segment>, references: References, y: string, k: nat, i: nat) {
    && k < |segments| && i < |segments[k].assignments|
    && var name := segments[k].assignments[i].0;
       if name in segments[k].definitions then name == y else Denotes(references, name, y)
  }

  /** The i-th mutation of segment k changes the variable in a way nobody knows. */
  predicate Mutates(segments: seq<Segment>, references: References, y: string, k: nat, i: nat) {
    k < |segments| && i < |segments[k].mutations| && Denotes(references, segments[k].mutations[i], y)
  }

  /** The only thing the script does to the variable is this assignment. */
  ghost predicate OnlyAssignment(segments: seq<Segment>, references: References, y: string, k: nat, i: nat) {
    && Assigns(segments, references, y, k, i)
    && (forall m: nat, j: nat :: Assigns(segments, references, y, m, j) ==> m == k && j == i)
    && (forall m: nat, j: nat :: !Mutates(segments, references, y, m, j))
  }

  /** Outside control flow, before every use, a text without expansions. */
  ghost predicate Literal(segments: seq<Segment>, references: References, y: string, uses: seq<nat>, text: string, k: nat, i: nat) {
    && OnlyAssignment(segments, references, y, k, i)
    && !segments[k].controlled && segments[k].assignments[i].1 == text
    && text != "" && '$' !in text && '`' !in text && forall u :: u in uses ==> k < u
  }

  lemma BookedIs(segments: seq<Segment>, references: References, y: string, k: nat, j: nat)
    requires k < |segments| && j < EffectCount(segments[k])
    ensures var n := |segments[k].assignments|;
      BookedName(segments[k], references, EffectAt(segments[k], j)) == y <==>
      if j < n then Assigns(segments, references, y, k, j) else Mutates(segments, references, y, k, j - n)
  {
  }

  lemma {:induction false} SegmentSilent(seg: Segment, references: References, order: nat, y: string, n: nat)
    requires n <= EffectCount(seg) && forall j :: 0 <= j < n ==> BookedName(seg, references, EffectAt(seg, j)) != y
    ensures SegmentOccurrences(seg, references, order, y, n) == []
    decreases n
  {
    hide BookedName, EffectAt;
    if n > 0 { SegmentSilent(seg, references, order, y, n - 1); }
  }

  lemma {:induction false} SegmentOnce(seg: Segment, references: References, order: nat, y: string, n: nat, i: nat)
    requires i < n <= EffectCount(seg)
    requires forall j :: 0 <= j < n ==> (BookedName(seg, references, EffectAt(seg, j)) == y <==> j == i)
    ensures SegmentOccurrences(seg, references, order, y, n) == [OccurrenceOf(seg, order, EffectAt(seg, i))]
    decreases n
  {
    hide BookedName, EffectAt, OccurrenceOf;
    if i == n - 1 {
      SegmentSilent(seg, references, order, y, n - 1);
    } else {
      SegmentOnce(seg, references, order, y, n - 1, i);
    }
  }

  lemma {:induction false} ScriptOnce(segments: seq<Segment>, references: References, y: string, n: nat, k: nat, i: nat)
    requires n <= |segments| && OnlyAssignment(segments, references, y, k, i)
    ensures Occurrences(segments, references, y, n)
         == if k < n then [Occurrence(segments[k].assignments[i].1, segments[k].controlled, k)] else []
    decreases n
  {
    hide SegmentOccurrences, OnlyAssignment;
    if n > 0 {
      ScriptOnce(segments, references, y, n - 1, k, i);
      SegmentOfScript(segments, references, y, n - 1, k, i);
    }
  }

  lemma SegmentOfScript(segments: seq<Segment>, references: References, y: string, m: nat, k: nat, i: nat)
    requires m < |segments| && OnlyAssignment(segments, references, y, k, i)
    ensures SegmentOccurrences(segments[m], references, m, y, EffectCount(segments[m]))
         == if m == k then [Occurrence(segments[k].assignments[i].1, segments[k].controlled, k)] else []
  {
    hide BookedName, SegmentOccurrences, Assigns, Mutates;
    forall j | 0 <= j < EffectCount(segments[m])
      ensures BookedName(segments[m], references, EffectAt(segments[m], j)) == y <==> m == k && j == i
    {
      BookedIs(segments, references, y, m, j);
      InRange(segments, references, y, k, i);
    }
    if m == k {
      InRange(segments, references, y, k, i);
      SegmentOnce(segments[m], references, m, y, EffectCount(segments[m]), i);
    } else {
      SegmentSilent(segments[m], references, m, y, EffectCount(segments[m]));
    }
  }

  lemma InRange(segments: seq<Segment>, references: References, y: string, k: nat, i: nat)
    requires Assigns(segments, references, y, k, i)
    ensures k < |segments| && i < |segments[k].assignments| <= EffectCount(segments[k])
  {
  }

  /** The one occurrence of a constant is an assignment, and there is nothing else. */
  lemma ConstantIsAssignment(segments: seq<Segment>, references: References, y: string, uses: seq<nat>, text: string)
      returns (k: nat, i: nat)
    requires LiteralAssignment(Occurrences(segments, references, y, |segments|), uses) == Some(text)
    ensures Literal(segments, references, y, uses, text, k, i)
  {
    hide SegmentOccurrences, Occurrences, BookedName;
    k := OnlySegment(segments, references, y, |segments|);
    i := OnlyBooked(segments[k], references, k, y, EffectCount(segments[k]));
    BookedIs(segments, references, y, k, i);
    hide Assigns, Mutates;
    forall m: nat, j: nat | Assigns(segments, references, y, m, j) ensures m == k && j == i {
      InRange(segments, references, y, m, j);
      BookedIs(segments, references, y, m, j);
      if m != k { SegmentBooks(segments[m], references, m, y, EffectCount(segments[m]), j); }
    }
    forall m: nat, j: nat ensures !Mutates(segments, references, y, m, j) {
      if Mutates(segments, references, y, m, j) {
        MutationInRange(segments, references, y, m, j);
        BookedIs(segments, references, y, m, |segments[m].assignments| + j);
        if m != k { SegmentBooks(segments[m], references, m, y, EffectCount(segments[m]), |segments[m].assignments| + j); }
      }
    }
  }

  lemma MutationInRange(segments: seq<Segment>, references: References, y: string, k: nat, i: nat)
    requires Mutates(segments, references, y, k, i)
    ensures k < |segments| && |segments[k].assignments| + i < EffectCount(segments[k])
  {
  }

  lemma {:induction false} SegmentBooks(seg: Segment, references: References, order: nat, y: string, n: nat, j: nat)
    requires j < n <= EffectCount(seg) && BookedName(seg, references, EffectAt(seg, j)) == y
    ensures SegmentOccurrences(seg, references, order, y, n) != []
    decreases n
  {
    hide BookedName, EffectAt;
    if j < n - 1 { SegmentBooks(seg, references, order, y, n - 1, j); }
  }

  /** A variable is given a literal text exactly when the one thing the script
      does to it is an assignment of that text, outside control flow and before
      every use; in every other case it is given none. */
  lemma LiteralIff(segments: seq<Segment>, references: References, y: string, uses: seq<nat>, text: string)
    ensures LiteralAssignment(Occurrences(segments, references, y, |segments|), uses) == Some(text)
      <==> exists k, i :: Literal(segments, references, y, uses, text, k, i)
  {
    if LiteralAssignment(Occurrences(segments, references, y, |segments|), uses) == Some(text) {
      var k, i := ConstantIsAssignment(segments, references, y, uses, text);
    }
    if k, i :| Literal(segments, references, y, uses, text, k, i) {
      ScriptOnce(segments, references, y, |segments|, k, i);
      InRange(segments, references, y, k, i);
      hide Occurrences, OnlyAssignment;
    }
  }

  // ---- Namerefs -----------------------------------------------------------

  /** Segment k is the only one that declares the alias. */
  ghost predicate OnlyDeclaration(segments: seq<Segment>, alias: string, k: nat) {
    && k < |segments| && alias in segments[k].definitions
    && forall m :: 0 <= m < |segments| && alias in segments[m].definitions ==> m == k
  }

  lemma {:induction false} Undeclared(segments: seq<Segment>, alias: string, n: nat)
    requires n <= |segments|
    ensures Definitions(segments, alias, n) == [] <==> forall m :: 0 <= m < n ==> alias !in segments[m].definitions
    decreases n
  {
    if n > 0 { Undeclared(segments, alias, n - 1); }
  }

  lemma {:induction false} DeclaredOnce(segments: seq<Segment>, alias: string, n: nat) returns (k: nat)
    requires n <= |segments| && |Definitions(segments, alias, n)| == 1
    ensures k < n && alias in segments[k].definitions
    ensures forall m :: 0 <= m < n && alias in segments[m].definitions ==> m == k
    ensures Definitions(segments, alias, n) == [(segments[k].definitions[alias], segments[k].controlled)]
    decreases n
  {
    if alias in segments[n - 1].definitions {
      k := n - 1;
      Undeclared(segments, alias, n - 1);
    } else {
      k := DeclaredOnce(segments, alias, n - 1);
    }
  }

  lemma {:induction false} OnceDeclares(segments: seq<Segment>, alias: string, n: nat, k: nat)
    requires n <= |segments| && OnlyDeclaration(segments, alias, k)
    ensures Definitions(segments, alias, n)
         == if k < n then [(segments[k].definitions[alias], segments[k].controlled)] else []
    decreases n
  {
    if n > 0 { OnceDeclares(segments, alias, n - 1, k); }
  }

  /** An alias counts exactly when one segment declares it, outside control flow,
      and then it stands for what that segment says. */
  lemma DeclaredIff(segments: seq<Segment>, declared: References, alias: string, target: string)
    requires DeclaredMap(segments, declared)
    ensures alias in declared && declared[alias] == target <==>
      exists k: nat :: OnlyDeclaration(segments, alias, k) && !segments[k].controlled && segments[k].definitions[alias] == target
  {
    hide Definitions;
    if k: nat :| OnlyDeclaration(segments, alias, k) && !segments[k].controlled && segments[k].definitions[alias] == target {
      OnceDeclares(segments, alias, |segments|, k);
      assert Declared(segments, alias);
    }
    if alias in declared {
      assert Declared(segments, alias);
      var k := DeclaredOnce(segments, alias, |segments|);
      assert OnlyDeclaration(segments, alias, k);
    }
  }
}
