/** scripts/mint_recovery_contract_v22.py: the anchored replacements that mint the
    v22 contract from v21, and the replacements meant to undo them. */
module ContractText {
  import opened Wrappers

  // ---- Counting and replacing ---------------------------------------------

  predicate At(s: string, i: nat, p: string) {
    i + |p| <= |s| && s[i..i + |p|] == p
  }

  /** The leftmost occurrence from i on. */
  function Find(s: string, p: string, i: nat): (r: Option<nat>)
    ensures r.Some? ==> i <= r.value && At(s, r.value, p)
    ensures forall j :: i <= j && At(s, j, p) ==> r.Some? && r.value <= j
    decreases |s| - i
  {
    if i + |p| > |s| then None
    else if At(s, i, p) then Some(i)
    else Find(s, p, i + 1)
  }

  /** Occurrences counted from the left, none sharing a character with the one before. */
  function Count(s: string, p: string): nat
    requires p != ""
    decreases |s|
  {
    match Find(s, p, 0)
    case None => 0
    case Some(i) => 1 + Count(s[i + |p|..], p)
  }

  function Replace(s: string, p: string, q: string): string
    requires p != ""
    decreases |s|
  {
    match Find(s, p, 0)
    case None => s
    case Some(i) => s[..i] + q + Replace(s[i + |p|..], p, q)
  }

  function ReplaceOnce(s: string, p: string, q: string): Option<string>
    requires p != ""
  {
    if Count(s, p) != 1 then None else Some(Replace(s, p, q))
  }

  datatype Edit = Edit(before: string, after: string)

  ghost predicate EditsOk(edits: seq<Edit>) {
    forall e :: e in edits ==> e.before != "" && e.after != ""
  }

  /** The edits from the n-th on, one after the other. */
  function Forward(text: string, edits: seq<Edit>, n: nat): Option<string>
    requires n <= |edits| && EditsOk(edits)
    decreases |edits| - n
  {
    if n == |edits| then Some(text) else
      match ReplaceOnce(text, edits[n].before, edits[n].after)
      case None => None
      case Some(next) => Forward(next, edits, n + 1)
  }

  /** The same edits in the same order, each the other way round. */
  function Backward(text: string, edits: seq<Edit>, n: nat): Option<string>
    requires n <= |edits| && EditsOk(edits)
    decreases |edits| - n
  {
    if n == |edits| then Some(text) else
      match ReplaceOnce(text, edits[n].after, edits[n].before)
      case None => None
      case Some(next) => Backward(next, edits, n + 1)
  }

  // ---- The two scripts ----------------------------------------------------

  // Long literals are written in pieces: the verifier reads the characters of short ones only.

  const CHECK_ANCHOR := "check_rows(id, expected," + " observed, passed) AS (\n"

  const CONTRACT_ID := " 'contract_id', 'brain-" + "v42/postgresql" + "-recovery"

  const IDENTITY := [
    Edit(CONTRACT_ID + "/v21',", CONTRACT_ID + "/v22',"),
    Edit(" 'schema_version', 21", " 'schema_version', 22")
  ]

  /** prefix is the live variant's proof, or nothing; check is the added row. */
  function ContractEdits(prefix: string, check: string): (edits: seq<Edit>)
    ensures EditsOk(edits)
  {
    [Edit(CHECK_ANCHOR, prefix + CHECK_ANCHOR + check)] + IDENTITY
  }

  method MintSql(text: string, prefix: string, check: string) returns (r: Option<string>)
    ensures r == Forward(text, ContractEdits(prefix, check), 0)
  {
    ghost var edits := ContractEdits(prefix, check);
    r := ReplaceOnce(text, CHECK_ANCHOR, prefix + CHECK_ANCHOR + check);
    if r.None? {
      return;
    }
    for n := 0 to |IDENTITY|
      invariant r.Some? && Forward(text, edits, 0) == Forward(r.value, edits, n + 1)
    {
      assert edits[n + 1] == IDENTITY[n];
      r := ReplaceOnce(r.value, IDENTITY[n].before, IDENTITY[n].after);
      if r.None? {
        return;
      }
    }
  }

  method RemoveDelta(text: string, prefix: string, check: string) returns (r: Option<string>)
    ensures r == Backward(text, ContractEdits(prefix, check), 0)
  {
    ghost var edits := ContractEdits(prefix, check);
    r := ReplaceOnce(text, prefix + CHECK_ANCHOR + check, CHECK_ANCHOR);
    if r.None? {
      return;
    }
    for n := 0 to |IDENTITY|
      invariant r.Some? && Backward(text, edits, 0) == Backward(r.value, edits, n + 1)
    {
      assert edits[n + 1] == IDENTITY[n];
      r := ReplaceOnce(r.value, IDENTITY[n].after, IDENTITY[n].before);
      if r.None? {
        return;
      }
    }
  }

  // ---- Overlaps -----------------------------------------------------------

  /** The two strings agree where they overlap when b starts d characters after a. */
  predicate Agree(a: string, b: string, d: int) {
    forall k :: 0 <= k < |a| && 0 <= k - d < |b| ==> a[k] == b[k - d]
  }

  /** No occurrence of one shares a character with an occurrence of the other. */
  predicate Apart(a: string, b: string) {
    forall d :: -|b| < d < |a| ==> !Agree(a, b, d)
  }

  /** No two occurrences share a character. */
  predicate Unbordered(a: string) {
    forall d :: 0 < d < |a| ==> !Agree(a, a, d)
  }

  lemma OccurrencesAgree(s: string, a: string, i: nat, b: string, j: nat)
    requires At(s, i, a) && At(s, j, b)
    ensures Agree(a, b, j - i)
  {
    forall k | 0 <= k < |a| && 0 <= k - (j - i) < |b| ensures a[k] == b[k - (j - i)] {
      assert a[k] == s[i..i + |a|][k] == s[i + k];
      assert b[k - (j - i)] == s[j..j + |b|][k - (j - i)] == s[i + k];
    }
  }

  /** A successful replacement changes one occurrence, the leftmost. */
  lemma ReplacedAt(s: string, p: string, q: string) returns (i: nat)
    requires p != "" && ReplaceOnce(s, p, q).Some?
    ensures Find(s, p, 0) == Some(i) && At(s, i, p)
    ensures ReplaceOnce(s, p, q) == Some(s[..i] + q + s[i + |p|..])
  {
    i := Find(s, p, 0).value;
    var rest := s[i + |p|..];
    assert Count(rest, p) == 0;
    assert Replace(rest, p, q) == rest;
  }

  /** Counting without overlaps misses nothing when the string cannot overlap itself. */
  lemma CountedOnce(s: string, p: string, i: nat, j: nat)
    requires p != "" && Count(s, p) == 1 && Unbordered(p) && At(s, i, p) && At(s, j, p)
    ensures i == j
  {
    var f := Find(s, p, 0).value;
    OnlyFirst(s, p, f, i);
    OnlyFirst(s, p, f, j);
  }

  lemma OnlyFirst(s: string, p: string, f: nat, i: nat)
    requires p != "" && Count(s, p) == 1 && Unbordered(p) && Find(s, p, 0) == Some(f) && At(s, i, p)
    ensures i == f
  {
    hide Find, Count, At, Agree;
    NoneBehind(s, p, f);
    assert f <= i;
    OccurrencesAgree(s, p, f, p, i);
    if i >= f + |p| { NotBehind(s, p, f, i); }
  }

  lemma NoneBehind(s: string, p: string, f: nat)
    requires p != "" && Count(s, p) == 1 && Find(s, p, 0) == Some(f)
    ensures f + |p| <= |s| && Find(s[f + |p|..], p, 0) == None
  {
    hide Find;
  }

  lemma NotBehind(s: string, p: string, f: nat, i: nat)
    requires f + |p| <= i && f + |p| <= |s| && At(s, i, p)
    ensures Find(s[f + |p|..], p, 0).Some?
  {
    hide Find, At;
    assert s == s[..f + |p|] + s[f + |p|..];
    AtShifts(s[..f + |p|], s[f + |p|..], i, p, s);
  }

  lemma AtShifts(head: string, tail: string, i: nat, p: string, s: string)
    requires s == head + tail && i >= |head| && At(s, i, p)
    ensures At(tail, i - |head|, p)
  {
    assert s[i..i + |p|] == tail[i - |head|..i - |head| + |p|];
  }

  // ---- A text with its edited places marked ---------------------------------

  datatype Doc = End(text: string) | Piece(text: string, edit: nat, rest: Doc)

  predicate InRange(doc: Doc, n: nat) {
    doc.Piece? ==> doc.edit < n && InRange(doc.rest, n)
  }

  function Places(doc: Doc): multiset<nat> {
    match doc
    case End(_) => multiset{}
    case Piece(_, edit, rest) => multiset{edit} + Places(rest)
  }

  function Word(edits: seq<Edit>, edit: nat, k: nat): string
    requires edit < |edits|
  {
    if edit < k then edits[edit].before else edits[edit].after
  }

  /** The text with the first k edits undone and the others done. */
  function Show(doc: Doc, edits: seq<Edit>, k: nat): string
    requires InRange(doc, |edits|)
  {
    match doc
    case End(text) => text
    case Piece(text, edit, rest) =>
      text + Word(edits, edit, k) + Show(rest, edits, k)
  }

  /** The document after marking the n-th edit at position i of its text. */
  function Mark(doc: Doc, edits: seq<Edit>, n: nat, i: nat): Doc
    requires n < |edits| && InRange(doc, |edits|)
  {
    var b := edits[n].before;
    match doc
    case End(text) => if i + |b| <= |text| then Piece(text[..i], n, End(text[i + |b|..])) else doc
    case Piece(text, edit, rest) =>
      if i + |b| <= |text| then Piece(text[..i], n, Piece(text[i + |b|..], edit, rest))
      else
        var start := |text| + |edits[edit].after|;
        if i < start then doc else Piece(text, edit, Mark(rest, edits, n, i - start))
  }

  /** No later edit can touch what an earlier one wrote. */
  predicate Untouched(edits: seq<Edit>) {
    forall i, j :: 0 <= i < j < |edits| ==> Apart(edits[i].after, edits[j].before)
  }

  lemma {:induction false} InRangeGrows(doc: Doc, n: nat, m: nat)
    requires InRange(doc, n) && n <= m
    ensures InRange(doc, m)
    decreases doc
  {
    if doc.Piece? { InRangeGrows(doc.rest, n, m); }
  }

  lemma {:induction false} MarkInRange(doc: Doc, edits: seq<Edit>, n: nat, i: nat)
    requires n < |edits| && InRange(doc, n) && InRange(doc, |edits|)
    ensures InRange(Mark(doc, edits, n, i), n + 1) && InRange(Mark(doc, edits, n, i), |edits|)
    decreases doc
  {
    InRangeGrows(doc, n, n + 1);
    if doc.Piece? && i >= |doc.text| + |edits[doc.edit].after| {
      MarkInRange(doc.rest, edits, n, i - |doc.text| - |edits[doc.edit].after|);
    }
    InRangeGrows(Mark(doc, edits, n, i), n + 1, |edits|);
  }

  /** Outside the marked places the anchor stands wholly in plain text. */
  lemma InPlainText(head: string, w: string, tail: string, b: string, i: nat)
    requires Apart(w, b) && At(head + w + tail, i, b)
    ensures i + |b| <= |head| || i >= |head| + |w|
    ensures i + |b| <= |head| ==> At(head, i, b)
    ensures i >= |head| + |w| ==> At(tail, i - |head| - |w|, b)
  {
    var s := head + w + tail;
    assert s[|head|..|head| + |w|] == w;
    OccurrencesAgree(s, w, |head|, b, i);
    if i + |b| <= |head| { assert s[i..i + |b|] == head[i..i + |b|]; }
    if i >= |head| + |w| { AtShifts(head + w, tail, i, b, s); }
  }

  /** s' is s with one occurrence of p replaced by q. */
  predicate Swapped(s: string, s': string, i: nat, p: string, q: string) {
    At(s, i, p) && s' == s[..i] + q + s[i + |p|..]
  }

  lemma SwapAfter(head: string, s: string, s': string, i: nat, p: string, q: string)
    requires Swapped(s, s', i, p, q)
    ensures Swapped(head + s, head + s', |head| + i, p, q)
  {
    var t := head + s;
    assert t[|head| + i..|head| + i + |p|] == s[i..i + |p|];
    assert t[..|head| + i] == head + s[..i] && t[|head| + i + |p|..] == s[i + |p|..];
    assert head + (s[..i] + q + s[i + |p|..]) == (head + s[..i]) + q + s[i + |p|..];
  }

  lemma SwapBefore(s: string, s': string, tail: string, i: nat, p: string, q: string)
    requires Swapped(s, s', i, p, q)
    ensures Swapped(s + tail, s' + tail, i, p, q)
  {
    var t := s + tail;
    assert t[i..i + |p|] == s[i..i + |p|];
    assert t[..i] == s[..i] && t[i + |p|..] == s[i + |p|..] + tail;
  }

  lemma Rejoin(text: string, i: nat, b: string, rest: string)
    requires At(text, i, b)
    ensures text[..i] + b + (text[i + |b|..] + rest) == text + rest
    ensures text[..i] + b + text[i + |b|..] == text
  {
  }

  ghost predicate Marks(doc: Doc, marked: Doc, edits: seq<Edit>, n: nat, i: nat)
    requires n < |edits| && InRange(doc, |edits|)
  {
    var b, a, s := edits[n].before, edits[n].after, Show(doc, edits, 0);
    && InRange(marked, |edits|)
    && Places(marked) == Places(doc) + multiset{n}
    && Swapped(s, Show(marked, edits, 0), i, b, a)
    && Show(marked, edits, |edits|) == Show(doc, edits, |edits|)
  }

  lemma MarkEnd(doc: Doc, edits: seq<Edit>, n: nat, i: nat)
    requires n < |edits| && doc.End? && At(doc.text, i, edits[n].before)
    ensures Marks(doc, Mark(doc, edits, n, i), edits, n, i)
  {
    Rejoin(doc.text, i, edits[n].before, "");
  }

  lemma MarkHere(doc: Doc, edits: seq<Edit>, n: nat, i: nat)
    requires n < |edits| && doc.Piece? && InRange(doc, |edits|)
    requires At(doc.text, i, edits[n].before)
    ensures Marks(doc, Mark(doc, edits, n, i), edits, n, i)
  {
    var text, b, a := doc.text, edits[n].before, edits[n].after;
    var marked := Mark(doc, edits, n, i);
    assert marked == Piece(text[..i], n, Piece(text[i + |b|..], doc.edit, doc.rest));
    assert Places(marked) == Places(doc) + multiset{n};
    hide Places, InRange;
    HereShows(doc, edits, n, i, 0);
    HereShows(doc, edits, n, i, |edits|);
    ShowRest(doc, edits, 0);
    ShowRest(doc, edits, |edits|);
    hide Show, Mark;
    SwapBefore(text, text[..i] + a + text[i + |b|..], Word(edits, doc.edit, 0) + Show(doc.rest, edits, 0), i, b, a);
    Rejoin(text, i, b, "");
    Reassociate(text, Word(edits, doc.edit, 0), Show(doc.rest, edits, 0));
    Reassociate(text, Word(edits, doc.edit, |edits|), Show(doc.rest, edits, |edits|));
  }

  lemma Reassociate(a: string, b: string, c: string)
    ensures a + b + c == a + (b + c)
  {
  }

  lemma HereShows(doc: Doc, edits: seq<Edit>, n: nat, i: nat, k: nat)
    requires n < |edits| && doc.Piece? && InRange(doc, |edits|) && At(doc.text, i, edits[n].before)
    ensures InRange(Mark(doc, edits, n, i), |edits|)
    ensures Show(Mark(doc, edits, n, i), edits, k)
         == doc.text[..i] + Word(edits, n, k) + doc.text[i + |edits[n].before|..]
            + (Word(edits, doc.edit, k) + Show(doc.rest, edits, k))
  {
    var m := doc.text[i + |edits[n].before|..];
    var w, tail := Word(edits, doc.edit, k), Show(doc.rest, edits, k);
    assert Show(Piece(m, doc.edit, doc.rest), edits, k) == m + w + tail;
    hide Show, Word, At;
    assert doc.text[..i] + Word(edits, n, k) + (m + w + tail) == doc.text[..i] + Word(edits, n, k) + m + (w + tail);
  }

  lemma MarkThere(doc: Doc, edits: seq<Edit>, n: nat, i: nat, marked: Doc)
    requires n < |edits| && doc.Piece? && InRange(doc, |edits|) && i >= |doc.text| + |edits[doc.edit].after|
    requires Marks(doc.rest, marked, edits, n, i - |doc.text| - |edits[doc.edit].after|)
    ensures Marks(doc, doc.(rest := marked), edits, n, i)
  {
    hide Swapped, Show;
    var after := doc.(rest := marked);
    assert Places(after) == Places(doc) + multiset{n};
    ShowRest(doc, edits, |edits|);
    ShowRest(after, edits, |edits|);
    SwappedThere(doc, edits, n, i, marked);
  }

  lemma SwappedThere(doc: Doc, edits: seq<Edit>, n: nat, i: nat, marked: Doc)
    requires n < |edits| && doc.Piece? && InRange(doc, |edits|) && InRange(marked, |edits|)
    requires i >= |doc.text| + |edits[doc.edit].after|
    requires Swapped(Show(doc.rest, edits, 0), Show(marked, edits, 0), i - |doc.text| - |edits[doc.edit].after|,
                     edits[n].before, edits[n].after)
    ensures Swapped(Show(doc, edits, 0), Show(doc.(rest := marked), edits, 0), i, edits[n].before, edits[n].after)
  {
    hide Swapped, Show;
    ShowRest(doc, edits, 0);
    ShowRest(doc.(rest := marked), edits, 0);
    var head := doc.text + Word(edits, doc.edit, 0);
    assert |head| == |doc.text| + |edits[doc.edit].after| by { WordFirst(edits, doc.edit); }
    SwapAfter(head, Show(doc.rest, edits, 0), Show(marked, edits, 0), i - |head|, edits[n].before, edits[n].after);
  }

  lemma WordFirst(edits: seq<Edit>, edit: nat)
    requires edit < |edits|
    ensures Word(edits, edit, 0) == edits[edit].after
  {
  }

  lemma ShowRest(doc: Doc, edits: seq<Edit>, k: nat)
    requires InRange(doc, |edits|) && doc.Piece?
    ensures Show(doc, edits, k) == doc.text + Word(edits, doc.edit, k) + Show(doc.rest, edits, k)
  {
  }

  /** Marking an edit is applying it, and undoing all edits shows the same text as before. */
  lemma {:induction false} MarkShows(doc: Doc, edits: seq<Edit>, n: nat, i: nat)
    requires n < |edits| && InRange(doc, n) && InRange(doc, |edits|) && EditsOk(edits) && Untouched(edits)
    requires At(Show(doc, edits, 0), i, edits[n].before)
    ensures Marks(doc, Mark(doc, edits, n, i), edits, n, i)
    decreases doc
  {
    hide Marks, At, Apart;
    match doc
    case End(_) => MarkEnd(doc, edits, n, i);
    case Piece(text, edit, rest) =>
      InPlainText(text, edits[edit].after, Show(rest, edits, 0), edits[n].before, i);
      if i + |edits[n].before| <= |text| {
        MarkHere(doc, edits, n, i);
      } else {
        var j := i - |text| - |edits[edit].after|;
        MarkShows(rest, edits, n, j);
        MarkCase(doc, edits, n, i);
        MarkThere(doc, edits, n, i, Mark(rest, edits, n, j));
      }
  }

  lemma MarkCase(doc: Doc, edits: seq<Edit>, n: nat, i: nat)
    requires n < |edits| && doc.Piece? && InRange(doc, |edits|)
    requires i >= |doc.text| + |edits[doc.edit].after| && i + |edits[n].before| > |doc.text|
    ensures Mark(doc, edits, n, i)
         == doc.(rest := Mark(doc.rest, edits, n, i - |doc.text| - |edits[doc.edit].after|))
  {
  }

  ghost predicate EachOnce(doc: Doc, n: nat) {
    forall i: nat :: Places(doc)[i] == if i < n then 1 else 0
  }

  /** Minting writes each edit at a place of its own. */
  lemma {:induction false} ForwardMarks(doc: Doc, edits: seq<Edit>, n: nat) returns (final: Doc)
    requires n <= |edits| && InRange(doc, n) && InRange(doc, |edits|) && EachOnce(doc, n)
    requires EditsOk(edits) && Untouched(edits) && Forward(Show(doc, edits, 0), edits, n).Some?
    ensures InRange(final, |edits|) && EachOnce(final, |edits|)
    ensures Forward(Show(doc, edits, 0), edits, n) == Some(Show(final, edits, 0))
    ensures Show(final, edits, |edits|) == Show(doc, edits, |edits|)
    decreases |edits| - n
  {
    hide ReplaceOnce, Show, Mark, At, Untouched;
    if n == |edits| {
      final := doc;
    } else {
      var s := Show(doc, edits, 0);
      var i := ReplacedAt(s, edits[n].before, edits[n].after);
      MarkShows(doc, edits, n, i);
      MarkInRange(doc, edits, n, i);
      final := ForwardMarks(Mark(doc, edits, n, i), edits, n + 1);
    }
  }

  lemma {:induction false} NotPlaced(doc: Doc, edits: seq<Edit>, n: nat)
    requires InRange(doc, |edits|) && n !in Places(doc)
    ensures Show(doc, edits, n + 1) == Show(doc, edits, n)
    decreases doc
  {
    if doc.Piece? { NotPlaced(doc.rest, edits, n); }
  }

  /** Undoing one more edit is putting its anchor back where the edit stands. */
  lemma {:induction false} UndoneAt(doc: Doc, edits: seq<Edit>, n: nat) returns (i: nat)
    requires n < |edits| && InRange(doc, |edits|) && Places(doc)[n] == 1
    ensures Swapped(Show(doc, edits, n), Show(doc, edits, n + 1), i, edits[n].after, edits[n].before)
    decreases doc
  {
    hide Show, Swapped;
    var Piece(text, edit, rest) := doc;
    var a, b := edits[n].after, edits[n].before;
    var w, w' := Word(edits, edit, n), Word(edits, edit, n + 1);
    ShowRest(doc, edits, n);
    ShowRest(doc, edits, n + 1);
    if edit == n {
      NotPlaced(rest, edits, n);
      i := |text|;
      SwapHere(text, a, b, Show(rest, edits, n));
    } else {
      var j := UndoneAt(rest, edits, n);
      assert w == w';
      i := |text + w| + j;
      SwapAfter(text + w, Show(rest, edits, n), Show(rest, edits, n + 1), j, a, b);
    }
  }

  lemma SwapHere(text: string, a: string, b: string, tail: string)
    ensures Swapped(text + a + tail, text + b + tail, |text|, a, b)
  {
    var s := text + a + tail;
    assert s[|text|..|text| + |a|] == a && s[..|text|] == text && s[|text| + |a|..] == tail;
  }

  lemma {:induction false} BackwardUndoes(doc: Doc, edits: seq<Edit>, n: nat)
    requires n <= |edits| && InRange(doc, |edits|) && EachOnce(doc, |edits|) && EditsOk(edits)
    requires forall e :: e in edits ==> Unbordered(e.after)
    requires Backward(Show(doc, edits, n), edits, n).Some?
    ensures Backward(Show(doc, edits, n), edits, n) == Some(Show(doc, edits, |edits|))
    decreases |edits| - n
  {
    hide ReplaceOnce, Show, At, Unbordered, Count, Places, InRange;
    if n < |edits| {
      var s := Show(doc, edits, n);
      var i := UndoneAt(doc, edits, n);
      var j := ReplacedAt(s, edits[n].after, edits[n].before);
      CountIsOne(s, edits[n].after, edits[n].before);
      CountedOnce(s, edits[n].after, i, j);
      BackwardUndoes(doc, edits, n + 1);
    }
  }

  lemma CountIsOne(s: string, p: string, q: string)
    requires p != "" && ReplaceOnce(s, p, q).Some?
    ensures Count(s, p) == 1
  {
  }

  /** Edits that no later edit can touch, and whose results cannot overlap
      themselves, are undone exactly by the same edits in the same order. */
  lemma BackwardInverts(text: string, edits: seq<Edit>)
    requires EditsOk(edits) && Untouched(edits) && forall e :: e in edits ==> Unbordered(e.after)
    requires Forward(text, edits, 0).Some? && Backward(Forward(text, edits, 0).value, edits, 0).Some?
    ensures Backward(Forward(text, edits, 0).value, edits, 0) == Some(text)
  {
    var doc := ForwardMarks(End(text), edits, 0);
    BackwardUndoes(doc, edits, 0);
  }

  // ---- The identity anchors -------------------------------------------------

  lemma ContractIdUnbordered()
    ensures Unbordered(IDENTITY[0].after)
  {
    var s := IDENTITY[0].after;
    forall d | 0 < d < |s| ensures !Agree(s, s, d) {
      if d == 15 { assert s[17] != s[2]; } else { assert s[d] != s[0]; }
    }
  }

  lemma VersionUnbordered()
    ensures Unbordered(IDENTITY[1].after)
  {
    var s := IDENTITY[1].after;
    forall d | 0 < d < |s| ensures !Agree(s, s, d) {
      if d == 18 { assert s[19] != s[1]; } else { assert s[d] != s[0]; }
    }
  }

  lemma VersionNotInside(d: int)
    requires 0 <= d < |IDENTITY[0].after|
    ensures !Agree(IDENTITY[0].after, IDENTITY[1].before, d)
  {
    var a, b := IDENTITY[0].after, IDENTITY[1].before;
    if d == 0 || d == 15 { assert a[d + 2] != b[2]; } else { assert a[d] != b[0]; }
  }

  lemma VersionNotBefore(d: int)
    requires 0 < d < |IDENTITY[1].before|
    ensures !Agree(IDENTITY[0].after, IDENTITY[1].before, -d)
  {
    var a, b := IDENTITY[0].after, IDENTITY[1].before;
    if d == 18 { assert a[1] != b[19]; } else { assert a[0] != b[d]; }
  }

  lemma IdentityApart()
    ensures Apart(IDENTITY[0].after, IDENTITY[1].before)
  {
    var a, b := IDENTITY[0].after, IDENTITY[1].before;
    forall d | -|b| < d < |a| ensures !Agree(a, b, d) {
      hide Agree;
      if d >= 0 { VersionNotInside(d); } else { VersionNotBefore(-d); }
    }
  }

  /** What the v22 scripts promise: the inherited text comes back byte for byte,
      when the added proof cannot overlap itself or the identity anchors. */
  lemma RemoveInvertsMint(text: string, prefix: string, check: string)
    requires Unbordered(prefix + CHECK_ANCHOR + check)
    requires Apart(prefix + CHECK_ANCHOR + check, IDENTITY[0].before)
    requires Apart(prefix + CHECK_ANCHOR + check, IDENTITY[1].before)
    requires Forward(text, ContractEdits(prefix, check), 0).Some?
    requires Backward(Forward(text, ContractEdits(prefix, check), 0).value, ContractEdits(prefix, check), 0).Some?
    ensures Backward(Forward(text, ContractEdits(prefix, check), 0).value, ContractEdits(prefix, check), 0) == Some(text)
  {
    hide Forward, Backward, Apart, Unbordered;
    ContractIdUnbordered();
    VersionUnbordered();
    IdentityApart();
    BackwardInverts(text, ContractEdits(prefix, check));
  }
}
