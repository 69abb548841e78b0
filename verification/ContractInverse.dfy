/** scripts/mint_recovery_contract_v22.py: exactly when one replacement is undone
    by its reverse, why later edits must not touch earlier ones, and the variant
    of the script that needs no premise. */
module ContractInverse {
  import opened Wrappers
  import opened ContractText

  // ---- One edit -----------------------------------------------------------

  /** The script's two directions, one after the other, recover every text on which both succeed. */
  ghost predicate Undone(edits: seq<Edit>)
    requires EditsOk(edits)
  {
    forall t: string :: RecoveredBy(t, edits)
  }

  ghost predicate RecoveredBy(t: string, edits: seq<Edit>)
    requires EditsOk(edits)
  {
    match Forward(t, edits, 0)
    case None => true
    case Some(u) => Backward(u, edits, 0).None? || Backward(u, edits, 0) == Some(t)
  }

  /** Replacing b by a and back recovers the text, if both succeed. */
  predicate UndoneOn(t: string, b: string, a: string)
    requires b != "" && a != ""
  {
    match ReplaceOnce(t, b, a)
    case None => true
    case Some(u) => ReplaceOnce(u, a, b).None? || ReplaceOnce(u, a, b) == Some(t)
  }

  /** If a overlaps itself at distance d, and b can stand d characters into it
      without standing earlier, taking a back d characters too early makes no difference. */
  predicate Harmless(b: string, a: string, d: nat)
    requires d <= |a|
  {
    Agree(a, a, d) && Find(a[..d] + b, b, 0) == Some(d) ==> a[..d] + b == b + a[|a| - d..]
  }

  lemma ReplacedFirst(s: string, p: string, q: string, i: nat)
    requires p != "" && Find(s, p, 0) == Some(i) && Find(s[i + |p|..], p, 0).None?
    ensures ReplaceOnce(s, p, q) == Some(s[..i] + q + s[i + |p|..])
  {
    var rest := s[i + |p|..];
    assert Count(rest, p) == 0 && Replace(rest, p, q) == rest;
    hide Find, Count, Replace;
  }

  /** Two occurrences of a string that counts one overlap. */
  lemma CountsOnce(s: string, p: string, f: nat, i: nat)
    requires p != "" && Count(s, p) == 1 && Find(s, p, 0) == Some(f) && At(s, i, p)
    ensures f <= i < f + |p|
  {
    var rest := s[f + |p|..];
    assert Find(rest, p, 0).None?;
    if i >= f + |p| { AtShifts(s[..f + |p|], rest, i, p, s); }
  }

  lemma AtInside(s: string, b: string, lo: nat, hi: nat, j: nat)
    requires lo <= hi <= |s| && lo + j + |b| <= hi
    ensures At(s[lo..hi], j, b) <==> At(s, lo + j, b)
  {
    var x, y := s[lo..hi][j..j + |b|], s[lo + j..lo + j + |b|];
    assert |x| == |y| && forall k :: 0 <= k < |b| ==> x[k] == s[lo + j + k] == y[k];
    assert x == y;
  }

  lemma NotFoundBefore(s: string, b: string, lo: nat, hi: nat, i: nat)
    requires Find(s, b, 0) == Some(i) && lo <= i && i + |b| <= hi <= |s|
    ensures Find(s[lo..hi], b, 0) == Some(i - lo)
  {
    hide Find, At;
    AtInside(s, b, lo, hi, i - lo);
    AtFits(s[lo..hi], b);
    var f := Find(s[lo..hi], b, 0).value;
    AtInside(s, b, lo, hi, f);
  }

  lemma AtFits(s: string, b: string)
    ensures forall j: nat :: At(s, j, b) ==> j + |b| <= |s|
  {
  }

  /** The replacement put back d characters early. */
  lemma PutBackEarly(t: string, b: string, a: string, i: nat, d: nat)
    requires At(t, i, b) && d <= i && d <= |a| && t[i - d..i] == a[..d]
    ensures var u := t[..i] + a + t[i + |b|..]; var j := i - d;
      && u[..j] + b + u[j + |a|..] == t[..j] + (b + a[|a| - d..]) + t[i + |b|..]
      && t == t[..j] + (a[..d] + b) + t[i + |b|..]
  {
    var u := t[..i] + a + t[i + |b|..];
    var j := i - d;
    assert u[..j] == t[..j];
    assert u[j + |a|..] == a[|a| - d..] + t[i + |b|..];
    assert t[..i] == t[..j] + t[j..i];
  }

  lemma HarmlessUndoes(t: string, b: string, a: string)
    requires b != "" && a != "" && forall d: nat :: 0 < d < |a| ==> Harmless(b, a, d)
    ensures UndoneOn(t, b, a)
  {
    hide Agree, Find, Count, Replace;
    if ReplaceOnce(t, b, a).Some? && ReplaceOnce(ReplaceOnce(t, b, a).value, a, b).Some? {
      var i := ReplacedAt(t, b, a);
      var u := t[..i] + a + t[i + |b|..];
      var j := ReplacedAt(u, a, b);
      assert u[i..i + |a|] == a;
      CountIsOne(u, a, b);
      CountsOnce(u, a, j, i);
      var d := i - j;
      OccurrencesAgree(u, a, j, a, i);
      assert t[j..i] == u[j..j + |a|][..d] == a[..d];
      PutBackEarly(t, b, a, i, d);
      if d > 0 {
        NotFoundBefore(t, b, j, i + |b|, i);
        assert t[j..i + |b|] == a[..d] + b;
        assert Harmless(b, a, d) && a[..d] + b == b + a[|a| - d..];
      } else {
        assert a[..0] + b == b + a[|a|..];
      }
    }
  }

  lemma TooShort(s: string, p: string)
    requires |s| < |p|
    ensures Find(s, p, 0).None?
  {
  }

  /** Otherwise the text that shows the overlap is not recovered. */
  lemma HarmfulShows(b: string, a: string, d: nat)
    requires b != "" && 0 < d < |a| && !Harmless(b, a, d)
    ensures !UndoneOn(a[..d] + b, b, a)
  {
    hide Find, Count, Replace, ReplaceOnce;
    var t := a[..d] + b;
    assert t[..d] == a[..d] && t[d + |b|..] == "";
    TooShort("", b);
    ReplacedFirst(t, b, a, d);
    var u := a[..d] + a;
    assert a[..d] + a + "" == u;
    Overlaid(a, d);
    FoundAtStart(u, a);
    assert u[|a|..] == a[|a| - d..];
    TooShort(u[|a|..], a);
    ReplacedFirst(u, a, b, 0);
    assert u[..0] + b + u[|a|..] == b + a[|a| - d..];
  }

  lemma Overlaid(a: string, d: nat)
    requires d <= |a| && Agree(a, a, d)
    ensures At(a[..d] + a, 0, a)
  {
    var u := a[..d] + a;
    forall k | 0 <= k < |a| ensures u[k] == a[k] {}
    assert u[0..|a|] == a;
  }

  lemma FoundAtStart(s: string, p: string)
    requires At(s, 0, p)
    ensures Find(s, p, 0) == Some(0)
  {
  }

  /** A script of one edit is undone by its reverse on every text, whenever both
      succeed, exactly when no self-overlap of its result does harm. */
  lemma UndoneIff(e: Edit)
    requires e.before != "" && e.after != ""
    ensures Undone([e]) <==> forall d: nat :: 0 < d < |e.after| ==> Harmless(e.before, e.after, d)
  {
    hide Harmless, UndoneOn, RecoveredBy;
    if forall d: nat :: 0 < d < |e.after| ==> Harmless(e.before, e.after, d) {
      forall t: string ensures RecoveredBy(t, [e]) {
        HarmlessUndoes(t, e.before, e.after);
        OneEdit(t, e);
      }
    }
    if d: nat :| 0 < d < |e.after| && !Harmless(e.before, e.after, d) {
      HarmfulShows(e.before, e.after, d);
      OneEdit(e.after[..d] + e.before, e);
    }
  }

  /** Of a list of one edit the two directions are these two replacements. */
  lemma OneEdit(t: string, e: Edit)
    requires e.before != "" && e.after != ""
    ensures RecoveredBy(t, [e]) <==> UndoneOn(t, e.before, e.after)
  {
    hide ReplaceOnce;
    OneForward(t, e);
    if Forward(t, [e], 0).Some? { OneBackward(Forward(t, [e], 0).value, e); }
  }

  lemma OneForward(t: string, e: Edit)
    requires e.before != "" && e.after != ""
    ensures Forward(t, [e], 0) == ReplaceOnce(t, e.before, e.after)
  {
    hide ReplaceOnce;
  }

  lemma OneBackward(t: string, e: Edit)
    requires e.before != "" && e.after != ""
    ensures Backward(t, [e], 0) == ReplaceOnce(t, e.after, e.before)
  {
    hide ReplaceOnce;
  }

  /** The condition is not idle: "b" to "aa" fails it. */
  lemma OverlappingResultNotUndone()
    ensures !Harmless("b", "aa", 1) && !UndoneOn("ab", "b", "aa")
  {
    var t := "ab";
    assert "aa"[..1] + "b" == t && t[0..1] == "a" && t[1..2] == "b";
    assert "b" + "aa"[1..] == "ba" && t[0] == 'a';
    HarmfulShows("b", "aa", 1);
  }

  // ---- Later edits must not touch earlier ones ------------------------------

  /** The second edit reaches into the result of the first, which then is found
      elsewhere: no result overlaps itself and both directions succeed, and the
      text is not recovered. */
  lemma TouchedResultNotUndone()
    ensures var edits := [Edit("x", "pq"), Edit("q!", "s")];
      && EditsOk(edits) && Unbordered("pq") && Unbordered("s") && !Apart("pq", "q!")
      && Forward("pqx!", edits, 0) == Some("pqps") && Backward("pqps", edits, 0) == Some("xpq!")
  {
    hide ReplaceOnce;
    var edits := [Edit("x", "pq"), Edit("q!", "s")];
    assert "pq"[1] == 'q' && "pq"[0] == 'p';
    assert Unbordered("pq");
    assert Agree("pq", "q!", 1);
    TouchingForward();
    TouchingBackward();
    assert Forward("pqps", edits, 2) == Some("pqps") && Forward("pqpq!", edits, 1) == Some("pqps");
    assert Backward("xpq!", edits, 2) == Some("xpq!") && Backward("xps", edits, 1) == Some("xpq!");
  }

  lemma TouchingForward()
    ensures ReplaceOnce("pqx!", "x", "pq") == Some("pqpq!") && ReplaceOnce("pqpq!", "q!", "s") == Some("pqps")
  {
    hide Find, Count, Replace, ReplaceOnce, At;
    var t, u := "pqx!", "pqpq!";
    assert t[..2] == "pq" && t[2..3] == "x" && t[3..] == "!" && u[..3] == "pqp" && u[3..5] == "q!" && u[5..] == "";
    NotAt(t, 0, "x", 0);
    NotAt(t, 1, "x", 0);
    IsAt(t, 2, "x");
    NotAt("!", 0, "x", 0);
    NotAt(u, 0, "q!", 0);
    NotAt(u, 1, "q!", 1);
    NotAt(u, 2, "q!", 0);
    IsAt(u, 3, "q!");
    FindsNothing("!", "x");
    TooShort("", "q!");
    ReplacedFirst(t, "x", "pq", 2);
    ReplacedFirst(u, "q!", "s", 3);
    assert "pq" + "pq" + "!" == u && "pqp" + "s" + "" == "pqps";
  }

  lemma TouchingBackward()
    ensures ReplaceOnce("pqps", "pq", "x") == Some("xps") && ReplaceOnce("xps", "s", "q!") == Some("xpq!")
  {
    hide Find, Count, Replace, ReplaceOnce, At;
    var t, u := "pqps", "xps";
    assert t[..0] == "" && t[0..2] == "pq" && t[2..] == "ps" && u[..2] == "xp" && u[2..3] == "s" && u[3..] == "";
    IsAt(t, 0, "pq");
    NotAt("ps", 0, "pq", 1);
    NotAt(u, 0, "s", 0);
    NotAt(u, 1, "s", 0);
    IsAt(u, 2, "s");
    FindsNothing("ps", "pq");
    TooShort("", "s");
    ReplacedFirst(t, "pq", "x", 0);
    ReplacedFirst(u, "s", "q!", 2);
    assert "" + "x" + "ps" == u && "xp" + "q!" + "" == "xpq!";
  }

  lemma IsAt(s: string, i: nat, p: string)
    requires i + |p| <= |s| && s[i..i + |p|] == p && forall j: nat :: j < i ==> !At(s, j, p)
    ensures Find(s, p, 0) == Some(i)
  {
    hide Find;
    assert At(s, i, p);
  }

  lemma NotAt(s: string, j: nat, p: string, k: nat)
    requires k < |p| && (j + k < |s| ==> s[j + k] != p[k])
    ensures !At(s, j, p)
  {
    assert j + |p| <= |s| ==> s[j..j + |p|][k] == s[j + k];
  }

  lemma FindsNothing(s: string, p: string)
    requires |s| == |p| && !At(s, 0, p)
    ensures Find(s, p, 0).None?
  {
    hide Find;
    AtFits(s, p);
  }

  // ---- The restored variant -------------------------------------------------

  function Joined(pieces: seq<string>): string {
    if pieces == [] then "" else pieces[0] + Joined(pieces[1..])
  }

  /** check_delta for a restored database, from the quote that opens the check's name on. */
  const RESTORED_TAIL := [
    "'runtime_acl_064',", " to_jsonb('not_applicable:", " pg_restore --no-owner", " --no-acl'::text),\n",
    "     to_jsonb('not_applicable:", " pg_restore --no-owner", " --no-acl'::text), TRUE\n", " UNION ALL\n"
  ]

  const RESTORED_CHECK := " SELECT" + (" " + Joined(RESTORED_TAIL))

  /** y never stands right after x. */
  predicate Free(s: string, x: char, y: char) {
    forall i :: 0 <= i < |s| - 1 ==> s[i] != x || s[i + 1] != y
  }

  /** A piece that brings in no such pair, whatever follows it. */
  predicate Closed(s: string, x: char, y: char) {
    s != "" && Free(s, x, y) && s[|s| - 1] != x
  }

  lemma {:induction false} JoinedClosed(pieces: seq<string>, x: char, y: char)
    requires pieces != [] && forall p :: p in pieces ==> Closed(p, x, y)
    ensures Closed(Joined(pieces), x, y)
    decreases |pieces|
  {
    assert pieces[0] in pieces;
    if |pieces| > 1 {
      JoinedClosed(pieces[1..], x, y);
      ClosedJoin(pieces[0], Joined(pieces[1..]), x, y);
    } else {
      assert pieces[0] + "" == pieces[0];
    }
  }

  lemma ClosedJoin(s: string, t: string, x: char, y: char)
    requires Closed(s, x, y) && Closed(t, x, y)
    ensures Closed(s + t, x, y)
  {
    forall i | 0 <= i < |s + t| - 1 ensures (s + t)[i] != x || (s + t)[i + 1] != y {
      if i < |s| - 1 { assert s[i] != x || s[i + 1] != y; }
      if i >= |s| { assert t[i - |s|] != x || t[i - |s| + 1] != y; }
    }
  }

  /** Neither the start of the anchor nor the start of an identity line recurs in the piece. */
  predicate Plain(s: string) {
    Closed(s, 'c', 'h') && Closed(s, ' ', '\'')
  }

  lemma PlainName()
    ensures Plain("'runtime_acl_064',")
  {
  }

  lemma PlainConversion()
    ensures Plain(" to_jsonb('not_applicable:") && Plain(" pg_restore --no-owner")
  {
  }

  lemma PlainIndented()
    ensures Plain("     to_jsonb('not_applicable:") && Plain(" UNION ALL\n")
  {
  }

  lemma PlainCast()
    ensures Plain(" --no-acl'::text),\n") && Plain(" --no-acl'::text), TRUE\n")
  {
  }

  lemma TailPlain()
    ensures Plain(Joined(RESTORED_TAIL))
  {
    hide Closed, Joined;
    PlainName();
    PlainConversion();
    PlainIndented();
    PlainCast();
    JoinedClosed(RESTORED_TAIL, 'c', 'h');
    JoinedClosed(RESTORED_TAIL, ' ', '\'');
  }

  lemma AnchorHead()
    ensures Closed("heck_rows(id, expected,", 'c', 'h') && Closed("check_rows(id, expected,", ' ', '\'')
  {
  }

  lemma AnchorRest()
    ensures Plain(" observed, passed) AS (\n") && Plain(" SELECT")
  {
  }

  lemma AnchorClosed()
    ensures Closed(CHECK_ANCHOR[1..] + " SELECT", 'c', 'h') && Closed(CHECK_ANCHOR + " SELECT", ' ', '\'')
  {
    hide Closed;
    AnchorHead();
    AnchorRest();
    assert CHECK_ANCHOR[1..] == "heck_rows(id, expected," + " observed, passed) AS (\n";
    ClosedJoin("heck_rows(id, expected,", " observed, passed) AS (\n", 'c', 'h');
    ClosedJoin("check_rows(id, expected,", " observed, passed) AS (\n", ' ', '\'');
    ClosedJoin(CHECK_ANCHOR[1..], " SELECT", 'c', 'h');
    ClosedJoin(CHECK_ANCHOR, " SELECT", ' ', '\'');
  }

  // The text that replaces the anchor.
  const RESTORED := CHECK_ANCHOR + RESTORED_CHECK

  lemma Regroup(a: string, b: string, c: string, d: string)
    requires a != ""
    ensures a + (b + (c + d)) == a + b + c + d && (a + (b + (c + d)))[1..] == a[1..] + b + (c + d)
  {
    assert a == [a[0]] + a[1..];
  }

  lemma JoinedStarts(pieces: seq<string>, k: nat)
    requires pieces != [] && k < |pieces[0]|
    ensures k < |Joined(pieces)| && Joined(pieces)[k] == pieces[0][k]
  {
  }

  /** Between the plain parts stands one space before a quote, and a name begins there. */
  lemma RestoredShape()
    ensures RESTORED == CHECK_ANCHOR + " SELECT" + " " + Joined(RESTORED_TAIL)
    ensures RESTORED[1..] == CHECK_ANCHOR[1..] + " SELECT" + (" " + Joined(RESTORED_TAIL))
    ensures |Joined(RESTORED_TAIL)| > 1 && Joined(RESTORED_TAIL)[1] == 'r'
  {
    hide Joined;
    Regroup(CHECK_ANCHOR, " SELECT", " ", Joined(RESTORED_TAIL));
    JoinedStarts(RESTORED_TAIL, 1);
  }

  lemma SpaceClosed(s: string)
    requires Closed(s, 'c', 'h')
    ensures Closed(" " + s, 'c', 'h')
  {
    ClosedJoin(" ", s, 'c', 'h');
  }

  /** The anchor's first two characters stand nowhere else in the result. */
  lemma RestoredStartsOnce()
    ensures Closed(RESTORED[1..], 'c', 'h')
  {
    hide Closed, Joined;
    AnchorClosed();
    TailPlain();
    RestoredShape();
    SpaceClosed(Joined(RESTORED_TAIL));
    ClosedJoin(CHECK_ANCHOR[1..] + " SELECT", " " + Joined(RESTORED_TAIL), 'c', 'h');
  }

  lemma RestoredUnbordered()
    ensures Unbordered(RESTORED)
  {
    RestoredStartsOnce();
    AnchorStart();
    var s := RESTORED;
    forall d | 0 < d < |s| ensures !Agree(s, s, d) {
      if d == |s| - 1 {
        assert s[d] == s[1..][d - 1] != 'c';
      } else {
        assert s[1..][d - 1] != 'c' || s[1..][d] != 'h';
        assert s[d] != s[0] || s[d + 1] != s[1];
      }
    }
  }

  lemma AnchorStart()
    ensures |RESTORED| > 4 && RESTORED[0] == 'c' && RESTORED[1] == 'h' && RESTORED[3] == 'c'
  {
    assert CHECK_ANCHOR[0] == 'c' && CHECK_ANCHOR[1] == 'h' && CHECK_ANCHOR[3] == 'c';
  }

  lemma LineBetween(left: string, tail: string, b: string, d: nat)
    requires Closed(left, ' ', '\'') && Closed(tail, ' ', '\'') && |tail| > 1 && tail[1] == 'r'
    requires |b| > 2 && b[0] == ' ' && b[1] == '\'' && b[2] != 'r' && d < |left + " " + tail|
    ensures !Agree(left + " " + tail, b, d)
  {
    var s, k := left + " " + tail, d - |left| - 1;
    if d == |left| {
      assert s[d + 2] == tail[1];
    } else if d == |left| - 1 {
      assert s[d] == left[d];
    } else if d < |left| {
      assert left[d] != ' ' || left[d + 1] != '\'';
      assert s[d] == left[d] && s[d + 1] == left[d + 1];
    } else if d == |s| - 1 {
      assert s[d] == tail[k];
    } else {
      assert tail[k] != ' ' || tail[k + 1] != '\'';
      assert s[d] == tail[k] && s[d + 1] == tail[k + 1];
    }
  }

  /** An identity line can start inside the result at no position: the one
      place where a space comes before a quote goes on with another name. */
  lemma NoLineInside(b: string, d: nat)
    requires |b| > 2 && b[0] == ' ' && b[1] == '\'' && b[2] != 'r' && d < |RESTORED|
    ensures !Agree(RESTORED, b, d)
  {
    hide Agree, Joined, Closed;
    AnchorClosed();
    TailPlain();
    RestoredShape();
    LineBetween(CHECK_ANCHOR + " SELECT", Joined(RESTORED_TAIL), b, d);
  }

  /** Nor can the result start inside an identity line. */
  lemma ResultNotInside(b: string, d: int)
    requires -|b| < d < 0 && b[|b| - 1] != 'c'
    requires forall i :: 0 <= i < |b| - 1 && b[i] == 'c' && b[i + 1] == 'h' ==> i + 3 < |b| && b[i + 3] != 'c'
    ensures !Agree(RESTORED, b, d)
  {
    AnchorStart();
    var s := RESTORED;
    hide Joined;
    if -d == |b| - 1 {
      assert s[0] != b[0 - d];
    } else if b[-d] == 'c' && b[1 - d] == 'h' {
      assert s[3] != b[3 - d];
    } else {
      assert s[0] != b[0 - d] || s[1] != b[1 - d];
    }
  }

  lemma LineApart(b: string)
    requires |b| > 2 && b[0] == ' ' && b[1] == '\'' && b[2] != 'r' && b[|b| - 1] != 'c'
    requires forall i :: 0 <= i < |b| - 1 && b[i] == 'c' && b[i + 1] == 'h' ==> i + 3 < |b| && b[i + 3] != 'c'
    ensures Apart(RESTORED, b)
  {
    forall d | -|b| < d < |RESTORED| ensures !Agree(RESTORED, b, d) {
      hide Agree;
      if d >= 0 { NoLineInside(b, d); } else { ResultNotInside(b, d); }
    }
  }

  lemma VersionApart()
    ensures Apart(RESTORED, IDENTITY[1].before)
  {
    hide Apart;
    VersionPairs();
    LineApart(IDENTITY[1].before);
  }

  lemma VersionPairs()
    ensures var b := IDENTITY[1].before;
      |b| == 21 && b[6] == 'm' && forall i :: 0 <= i < |b| - 1 && b[i] == 'c' && b[i + 1] == 'h' ==> i == 3
  {
  }

  lemma ContractIdPieces()
    ensures Closed(" 'contract_id', 'brain-", 'c', 'h') && Closed("v42/postgresql", 'c', 'h')
    ensures Closed("-recovery", 'c', 'h') && Closed("/v21',", 'c', 'h')
  {
  }

  lemma ContractIdApart()
    ensures Apart(RESTORED, IDENTITY[0].before)
  {
    var b := IDENTITY[0].before;
    ContractIdPieces();
    ClosedJoin(" 'contract_id', 'brain-", "v42/postgresql", 'c', 'h');
    ClosedJoin(" 'contract_id', 'brain-" + "v42/postgresql", "-recovery", 'c', 'h');
    ClosedJoin(CONTRACT_ID, "/v21',", 'c', 'h');
    assert Closed(b, 'c', 'h');
    assert b[0] == ' ' && b[1] == '\'' && b[2] == 'c';
    hide Apart;
    LineApart(b);
  }

  /** For a restored database the inverse holds as it stands: every v21 text that
      both scripts accept comes back byte for byte. */
  lemma RestoredRoundTrip(text: string)
    requires Forward(text, ContractEdits("", RESTORED_CHECK), 0).Some?
    requires Backward(Forward(text, ContractEdits("", RESTORED_CHECK), 0).value, ContractEdits("", RESTORED_CHECK), 0).Some?
    ensures Backward(Forward(text, ContractEdits("", RESTORED_CHECK), 0).value, ContractEdits("", RESTORED_CHECK), 0)
         == Some(text)
  {
    hide Forward, Backward, Apart, Unbordered;
    RestoredUnbordered();
    ContractIdApart();
    VersionApart();
    NoPrefix();
    RemoveInvertsMint(text, "", RESTORED_CHECK);
  }

  lemma NoPrefix()
    ensures "" + CHECK_ANCHOR + RESTORED_CHECK == RESTORED
  {
    EmptyPrefix(CHECK_ANCHOR);
  }

  lemma EmptyPrefix(s: string)
    ensures "" + s == s
  {
  }
}
