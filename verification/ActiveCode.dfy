/** scripts/check_container_image_pins.py, _active_shell_code and
    _shell_substitution_commands: blanking quoted data and dropping a comment,
    then collecting the substituted commands of a whole statement. */
module ActiveCode {
  import opened CommandSubstitution
  import opened PythonStrings
  import opened ShellWords

  // ---- The code as written ------------------------------------------------

  /** Where the pass is: its quote state, whether the last character escapes the
      next one, whether a comment may start here, and whether one has. */
  datatype Lex = Lex(quote: Quote, escaped: bool, edge: bool, stopped: bool)

  const START := Lex(Unquoted, false, true, false)

  /** A comment may start after this character. */
  predicate Opens(c: char) { Space(c) || c in ";&|()" }

  /** One character: what it leaves, and the state after it. */
  function Step(c: char, lex: Lex): (string, Lex) {
    var next := lex.(escaped := false, edge := Opens(c));
    if lex.stopped then ("", lex)
    else if lex.escaped then ([if lex.quote != SingleQuoted then c else ' '], next)
    else if c == '\\' && lex.quote != SingleQuoted then ([c], next.(escaped := true))
    else if lex.quote == SingleQuoted then (" ", if c == '\'' then next.(quote := Unquoted) else next)
    else if c == '\'' && lex.quote == Unquoted then (" ", next.(quote := SingleQuoted))
    else if c == '"' then ([c], next.(quote := if lex.quote == DoubleQuoted then Unquoted else DoubleQuoted))
    else if c == '#' && lex.quote == Unquoted && lex.edge then ("", lex.(stopped := true))
    else ([c], next)
  }

  function Left(text: string, lex: Lex): string {
    if text == "" then "" else Step(text[0], lex).0 + Left(text[1..], Step(text[0], lex).1)
  }

  function State(text: string, lex: Lex): Lex {
    if text == "" then lex else State(text[1..], Step(text[0], lex).1)
  }

  method ActiveShellCode(statement: string) returns (active: string)
    ensures active == Left(statement, START)
  {
    hide Left, State, Opens;
    active := "";
    var quote, escaped := Unquoted, false;
    ghost var lex := START;
    assert statement[0..] == statement && "" + Left(statement, START) == Left(statement, START);
    for index := 0 to |statement|
      invariant !lex.stopped && lex.quote == quote && lex.escaped == escaped
      invariant lex.edge == (index == 0 || Opens(statement[index - 1]))
      invariant active + Left(statement[index..], lex) == Left(statement, START)
    {
      var c := statement[index];
      LeftNext(statement, index, lex);
      ghost var before, was := active, lex;
      lex := Step(c, lex).1;
      if escaped {
        active := active + [if quote != SingleQuoted then c else ' '];
        escaped := false;
      } else if c == '\\' && quote != SingleQuoted {
        active := active + [c];
        escaped := true;
      } else if quote == SingleQuoted {
        active := active + " ";
        if c == '\'' {
          quote := Unquoted;
        }
      } else if c == '\'' && quote == Unquoted {
        active := active + " ";
        quote := SingleQuoted;
      } else if c == '"' {
        quote := if quote == DoubleQuoted then Unquoted else DoubleQuoted;
        active := active + [c];
      } else if c == '#' && quote == Unquoted && (index == 0 || Opens(statement[index - 1])) {
        StoppedLeft(statement[index + 1..], lex);
        Appended(before, "", "");
        return;
      } else {
        active := active + [c];
      }
      assert active == before + Step(c, was).0;
      Appended(before, Step(c, was).0, Left(statement[index + 1..], lex));
    }
    assert statement[|statement|..] == "";
    LeftNothing(active, lex);
  }

  lemma Appended(a: string, b: string, c: string)
    ensures a + (b + c) == a + b + c && a + "" == a
  {
  }

  lemma LeftNothing(active: string, lex: Lex)
    ensures active + Left("", lex) == active
  {
  }

  lemma LeftNext(statement: string, index: nat, lex: Lex)
    requires index < |statement|
    ensures Left(statement[index..], lex)
         == Step(statement[index], lex).0 + Left(statement[index + 1..], Step(statement[index], lex).1)
  {
    hide Step;
    assert statement[index..][1..] == statement[index + 1..];
  }

  lemma {:induction false} StoppedLeft(text: string, lex: Lex)
    requires lex.stopped
    ensures Left(text, lex) == "" && State(text, lex) == lex
    decreases |text|
  {
    if text != "" { StoppedLeft(text[1..], lex); }
  }

  method ShellSubstitutionCommands(statement: string) returns (commands: seq<string>)
    ensures commands == Collected(Left(statement, START), 0)
  {
    var active := ActiveShellCode(statement);
    commands := Collect(active, []);
  }

  // ---- Composing passes ---------------------------------------------------

  /** Between two characters, outside what the pass takes for single quotes. */
  predicate Ready(lex: Lex) { lex.quote != SingleQuoted && !lex.escaped && !lex.stopped }

  lemma {:induction false} PassConcat(a: string, b: string, lex: Lex)
    ensures Left(a + b, lex) == Left(a, lex) + Left(b, State(a, lex)) && State(a + b, lex) == State(b, State(a, lex))
    decreases |a|
  {
    hide Step;
    if a == "" {
      assert a + b == b;
    } else {
      assert (a + b)[1..] == a[1..] + b;
      PassConcat(a[1..], b, Step(a[0], lex).1);
    }
  }

  lemma {:induction false} LeavesNoMore(text: string, lex: Lex)
    ensures |Left(text, lex)| <= |text|
    decreases |text|
  {
    if text != "" { LeavesNoMore(text[1..], Step(text[0], lex).1); }
  }

  /** Of the text the pass leaves `out`, which is as long, exactly when the
      condition holds, and it is ready for what follows if it does. */
  ghost predicate Exact(text: string, lex: Lex, out: string, condition: bool) {
    && |out| == |text| && (Left(text, lex) == out <==> condition)
    && (condition ==> Ready(State(text, lex)))
  }

  /** A misread text is not made up for by the next one. */
  lemma ExactConcat(a: string, b: string, lex: Lex, x: string, y: string, p: bool, q: bool)
    requires Exact(a, lex, x, p) && |y| == |b| && (p ==> Exact(b, State(a, lex), y, q))
    ensures Exact(a + b, lex, x + y, p && q)
  {
    hide Left, State, Ready;
    PassConcat(a, b, lex);
    LeavesNoMore(a, lex);
    LeavesNoMore(b, State(a, lex));
    if Left(a + b, lex) == x + y {
      assert Left(a + b, lex)[..|a|] == x && Left(a + b, lex)[|a|..] == y;
    }
  }

  /** A comment may start at the beginning, and behind white space or one of five signs. */
  lemma {:induction false} EdgeBehind(text: string, lex: Lex)
    requires text != "" && !State(text, lex).stopped
    ensures var last := text[|text| - 1];
      State(text, lex).edge <==> Space(last) || last == ';' || last == '&' || last == '|' || last == '(' || last == ')'
    decreases |text|
  {
    if lex.stopped { StoppedLeft(text, lex); }
    if |text| == 1 {
      assert text[1..] == "";
    } else {
      EdgeBehind(text[1..], Step(text[0], lex).1);
    }
  }

  // ---- Text the pass leaves alone -----------------------------------------

  /** Outside what the pass takes for double quotes, this character is neither
      an unescaped apostrophe nor a comment sign where a comment may start. */
  predicate KeptCharacter(c: char, lex: Lex) {
    lex.escaped || lex.quote == DoubleQuoted || (c != '\'' && !(c == '#' && lex.edge))
  }

  predicate Kept(text: string, lex: Lex) {
    text != "" ==> KeptCharacter(text[0], lex) && Kept(text[1..], Step(text[0], lex).1)
  }

  /** No escape is left open at the end. */
  predicate Complete(text: string) {
    if text == "" then true
    else if text[0] == '\\' then |text| > 1 && Complete(text[2..])
    else Complete(text[1..])
  }

  lemma {:induction false} KeptExactly(text: string, lex: Lex)
    requires lex.quote != SingleQuoted && !lex.stopped
    ensures Left(text, lex) == text <==> Kept(text, lex)
    ensures Kept(text, lex) ==> State(text, lex).quote != SingleQuoted && !State(text, lex).stopped
    decreases |text|
  {
    if text != "" {
      var step := Step(text[0], lex);
      LeavesNoMore(text[1..], step.1);
      if KeptCharacter(text[0], lex) {
        KeptExactly(text[1..], step.1);
        assert step.0 == [text[0]];
        assert Left(text, lex)[0] == text[0] && Left(text, lex)[1..] == Left(text[1..], step.1);
      } else {
        assert Left(text, lex) != text by { if step.0 != "" { assert Left(text, lex)[0] == ' '; } }
      }
    }
  }

  lemma {:induction false} NotEscapedBehind(text: string, lex: Lex)
    requires Ready(lex) && Complete(text) && Kept(text, lex)
    ensures !State(text, lex).escaped
    decreases |text|
  {
    if text != "" {
      var next := Step(text[0], lex).1;
      if text[0] == '\\' {
        assert text[1..][1..] == text[2..];
        NotEscapedBehind(text[2..], Step(text[1], next).1);
      } else {
        NotEscapedBehind(text[1..], next);
      }
    }
  }

  lemma {:induction false} LastCompletes(text: string)
    requires text != "" ==> text[|text| - 1] != '\\'
    ensures Complete(text)
    decreases |text|
  {
    if text != "" { LastCompletes(if text[0] == '\\' then text[2..] else text[1..]); }
  }

  lemma KeptExact(text: string, lex: Lex)
    requires Ready(lex) && Complete(text)
    ensures Exact(text, lex, text, Kept(text, lex))
  {
    hide Left, State, Kept, Complete;
    KeptExactly(text, lex);
    if Kept(text, lex) { NotEscapedBehind(text, lex); }
  }

  lemma {:induction false} UnmarkedKept(text: string, lex: Lex)
    requires '\'' !in text && '#' !in text
    ensures Kept(text, lex)
    decreases |text|
  {
    if text != "" {
      assert text[0] in text && forall c :: c in text[1..] ==> c in text;
      UnmarkedKept(text[1..], Step(text[0], lex).1);
    }
  }

  predicate Delimiter(text: string) { text in {"(", "$(", "$((", ")", "))", "\""} }

  lemma DelimiterExact(text: string, lex: Lex)
    requires Ready(lex) && Delimiter(text)
    ensures Exact(text, lex, text, true)
  {
    UnmarkedKept(text, lex);
    LastCompletes(text);
    hide Kept, Complete;
    KeptExact(text, lex);
  }

  lemma ExactEnclosed(open: string, text: string, close: string, lex: Lex, out: string, condition: bool)
    requires Ready(lex) && Delimiter(open) && Delimiter(close) && |out| == |text|
    requires Ready(State(open, lex)) ==> Exact(text, State(open, lex), out, condition)
    ensures Exact(open + text + close, lex, open + out + close, condition)
  {
    hide Left, State, Ready, Delimiter;
    DelimiterExact(open, lex);
    ExactConcat(open, text, lex, open, out, true, condition);
    if condition { DelimiterExact(close, State(open + text, lex)); }
    ExactConcat(open + text, close, lex, open + out, close, condition, true);
  }

  // ---- What the pass leaves of printed text -------------------------------

  function Spaces(n: nat): (r: seq<Piece>)
    ensures |r| == n && forall i :: 0 <= i < n ==> r[i] == Plain(' ')
  {
    seq(n, i => Plain(' '))
  }

  function Blanks(n: nat): string { seq(n, i => ' ') }

  /** The text with its single-quoted data blanked, except where the pass, which
      counts double quotes, takes it to stand inside double quotes. */
  function Blanked(pieces: seq<Piece>, lex: Lex): seq<Piece>
    decreases pieces, 0
  {
    if pieces == [] then [] else Blank(pieces[0], lex) + Blanked(pieces[1..], State(PrintPiece(pieces[0]), lex))
  }

  function Blank(p: Piece, lex: Lex): seq<Piece>
    decreases p, 1
  {
    match p
    case Single(text) => if lex.quote == Unquoted then Spaces(|text| + 2) else [p]
    case Double(parts) => [Double(BlankedParts(parts, State("\"", lex)))]
    case Group(body) => [Group(Blanked(body, State("(", lex)))]
    case Subst(body) => [Subst(Blanked(body, State("$(", lex)))]
    case Arith(body) => [Arith(Blanked(body, State("$((", lex)))]
    case _ => [p]
  }

  function BlankedParts(parts: seq<Part>, lex: Lex): seq<Part>
    decreases parts, 0
  {
    if parts == [] then [] else [BlankPart(parts[0], lex)] + BlankedParts(parts[1..], State(PrintPart(parts[0]), lex))
  }

  function BlankPart(p: Part, lex: Lex): Part
    decreases p, 1
  {
    if p.SubstIn? then SubstIn(Blanked(p.body, State("$(", lex))) else p
  }

  /** The pass misreads nothing: wherever by its count of double quotes it is
      outside them, it meets no apostrophe but those of single-quoted data, and
      no comment sign where a comment may start. */
  predicate Active(pieces: seq<Piece>, lex: Lex)
    decreases pieces, 0
  {
    pieces != [] ==> ActivePiece(pieces[0], lex) && Active(pieces[1..], State(PrintPiece(pieces[0]), lex))
  }

  predicate ActivePiece(p: Piece, lex: Lex)
    decreases p, 1
  {
    match p
    case Single(_) => lex.quote == Unquoted || Kept(PrintPiece(p), lex)
    case Double(parts) => ActiveParts(parts, State("\"", lex))
    case Group(body) => Active(body, State("(", lex))
    case Subst(body) => Active(body, State("$(", lex))
    case Arith(body) => Active(body, State("$((", lex))
    case _ => Kept(PrintPiece(p), lex)
  }

  predicate ActiveParts(parts: seq<Part>, lex: Lex)
    decreases parts, 0
  {
    parts != [] ==> ActivePart(parts[0], lex) && ActiveParts(parts[1..], State(PrintPart(parts[0]), lex))
  }

  predicate ActivePart(p: Part, lex: Lex)
    decreases p, 1
  {
    if p.SubstIn? then Active(p.body, State("$(", lex)) else Kept(PrintPart(p), lex)
  }

  lemma {:induction false} PrintSpaces(n: nat)
    ensures Print(Spaces(n)) == Blanks(n) && Wellformed(Spaces(n))
    ensures QuotedArith(Spaces(n)) == 0 && Commands(Spaces(n)) == []
    decreases n
  {
    if n > 0 {
      PrintSpaces(n - 1);
      assert Spaces(n)[1..] == Spaces(n - 1);
      assert Blanks(n) == " " + Blanks(n - 1);
    }
  }

  lemma {:induction false} PrintConcat(a: seq<Piece>, b: seq<Piece>)
    ensures Print(a + b) == Print(a) + Print(b) && Commands(a + b) == Commands(a) + Commands(b)
    decreases |a|
  {
    hide PrintPiece, PieceCommands;
    if a == [] {
      assert a + b == b;
    } else {
      assert (a + b)[1..] == a[1..] + b && (a + b)[0] == a[0];
      PrintConcat(a[1..], b);
      assert PrintPiece(a[0]) + (Print(a[1..]) + Print(b)) == PrintPiece(a[0]) + Print(a[1..]) + Print(b);
      assert PieceCommands(a[0]) + (Commands(a[1..]) + Commands(b)) == PieceCommands(a[0]) + Commands(a[1..]) + Commands(b);
    }
  }

  lemma {:induction false} OkConcat(a: seq<Piece>, b: seq<Piece>)
    ensures Wellformed(a + b) <==> Wellformed(a) && Wellformed(b)
    ensures QuotedArith(a + b) == QuotedArith(a) + QuotedArith(b)
    decreases |a|
  {
    hide PieceOk, QuotedArithIn;
    if a == [] {
      assert a + b == b;
    } else {
      assert (a + b)[1..] == a[1..] + b && (a + b)[0] == a[0];
      OkConcat(a[1..], b);
    }
  }

  lemma PrintOne(p: Piece)
    ensures Print([p]) == PrintPiece(p) && (Wellformed([p]) <==> PieceOk(p))
    ensures QuotedArith([p]) == QuotedArithIn(p) && Commands([p]) == PieceCommands(p)
  {
    assert Print([p][1..]) == "" && Commands([p][1..]) == [];
  }

  // ---- Blanking keeps the text's shape ------------------------------------

  /** Each command kept its place and its length. */
  predicate Aligned(a: seq<string>, b: seq<string>) {
    |a| == |b| && forall i :: 0 <= i < |a| ==> |a[i]| == |b[i]|
  }

  /** Text a stands for b: well-formed, with the same commands at the same places. */
  predicate Keeps(a: seq<Piece>, b: seq<Piece>) {
    && Wellformed(a) && QuotedArith(a) == QuotedArith(b)
    && |Print(a)| == |Print(b)| && Aligned(Commands(a), Commands(b))
    && (b == [] ==> a == []) && (b != [] && !b[0].Group? ==> a != [] && !a[0].Group?)
  }

  predicate KeepsParts(a: seq<Part>, b: seq<Part>) {
    && PartsOk(a) && ArithParts(a) == ArithParts(b)
    && |PrintParts(a)| == |PrintParts(b)| && Aligned(PartsCommands(a), PartsCommands(b))
  }

  lemma NoneAligned()
    ensures Aligned([], [])
  {
  }

  lemma AlignedConcat(a: seq<string>, b: seq<string>, c: seq<string>, d: seq<string>)
    requires Aligned(a, b) && Aligned(c, d)
    ensures Aligned(a + c, b + d)
  {
  }

  lemma KeepsConcat(a: seq<Piece>, b: seq<Piece>, c: seq<Piece>, d: seq<Piece>)
    requires Keeps(a, b) && Keeps(c, d) && a != [] && b != []
    ensures Keeps(a + c, b + d)
  {
    hide Wellformed, QuotedArith, Print, Commands, Aligned;
    PrintConcat(a, c);
    PrintConcat(b, d);
    OkConcat(a, c);
    OkConcat(b, d);
    AlignedConcat(Commands(a), Commands(b), Commands(c), Commands(d));
  }

  lemma {:induction false} BlankedKeeps(pieces: seq<Piece>, lex: Lex)
    requires Wellformed(pieces)
    ensures Keeps(Blanked(pieces, lex), pieces)
    decreases pieces, 0
  {
    hide PrintPiece, PieceOk, Blank, State;
    if pieces != [] {
      hide Keeps;
      var next := State(PrintPiece(pieces[0]), lex);
      BlankKeeps(pieces[0], lex);
      BlankedKeeps(pieces[1..], next);
      KeepsConcat(Blank(pieces[0], lex), [pieces[0]], Blanked(pieces[1..], next), pieces[1..]);
      assert pieces == [pieces[0]] + pieces[1..];
    }
  }

  lemma {:induction false} BlankKeeps(p: Piece, lex: Lex)
    requires PieceOk(p)
    ensures Keeps(Blank(p, lex), [p]) && Blank(p, lex) != []
    decreases p, 1
  {
    hide State, Wellformed, Commands, QuotedArith, Print, PrintParts, PartsCommands, PartsOk, ArithParts;
    PrintOne(p);
    match p
    case Single(text) =>
      PrintSpaces(|text| + 2);
    case Double(parts) =>
      PartsKeep(parts, State("\"", lex));
      PrintOne(Double(BlankedParts(parts, State("\"", lex))));
    case Group(body) =>
      BlankedKeeps(body, State("(", lex));
      PrintOne(Group(Blanked(body, State("(", lex))));
    case Subst(body) =>
      BlankedKeeps(body, State("$(", lex));
      PrintOne(Subst(Blanked(body, State("$(", lex))));
    case Arith(body) =>
      BlankedKeeps(body, State("$((", lex));
      PrintOne(Arith(Blanked(body, State("$((", lex))));
    case _ =>
  }

  lemma {:induction false} PartsKeep(parts: seq<Part>, lex: Lex)
    requires PartsOk(parts)
    ensures KeepsParts(BlankedParts(parts, lex), parts)
    decreases parts, 0
  {
    hide State, PrintPart, PartOk, PartCommands, BlankPart, Aligned;
    NoneAligned();
    if parts != [] {
      var p := parts[0];
      PartsKeep(parts[1..], State(PrintPart(p), lex));
      PartKeeps(p, lex);
      AlignedConcat(PartCommands(BlankPart(p, lex)), PartCommands(p),
                    PartsCommands(BlankedParts(parts[1..], State(PrintPart(p), lex))), PartsCommands(parts[1..]));
    }
  }

  lemma {:induction false} PartKeeps(p: Part, lex: Lex)
    requires PartOk(p)
    ensures PartOk(BlankPart(p, lex)) && (BlankPart(p, lex).ArithIn? <==> p.ArithIn?)
    ensures |PrintPart(BlankPart(p, lex))| == |PrintPart(p)| && Aligned(PartCommands(BlankPart(p, lex)), PartCommands(p))
    decreases p, 1
  {
    hide State, Wellformed, Commands, QuotedArith, Print, PrintItems;
    if p.SubstIn? { BlankedKeeps(p.body, State("$(", lex)); }
  }

  // ---- The pass over printed text -----------------------------------------

  lemma {:induction false} BlankText(text: string, edge: bool) returns (after: bool)
    requires '\'' !in text
    ensures Left(text, Lex(SingleQuoted, false, edge, false)) == Blanks(|text|)
    ensures State(text, Lex(SingleQuoted, false, edge, false)) == Lex(SingleQuoted, false, after, false)
    decreases |text|
  {
    if text == "" {
      after := edge;
    } else {
      after := BlankText(text[1..], Opens(text[0]));
      assert Blanks(|text|) == " " + Blanks(|text| - 1);
    }
  }

  lemma OneCharacter(c: char, lex: Lex)
    ensures Left([c], lex) == Step(c, lex).0 && State([c], lex) == Step(c, lex).1
  {
    assert [c][1..] == "" && Step(c, lex).0 + "" == Step(c, lex).0;
  }

  /** Single-quoted data is blanked where the pass is outside double quotes. */
  lemma SingleExact(text: string, lex: Lex)
    requires '\'' !in text && Ready(lex) && lex.quote == Unquoted
    ensures Exact("'" + text + "'", lex, Blanks(|text| + 2), true)
  {
    OneCharacter('\'', lex);
    var after := BlankText(text, false);
    OneCharacter('\'', Lex(SingleQuoted, false, after, false));
    hide Left, State;
    PassConcat("'", text, lex);
    PassConcat("'" + text, "'", lex);
    assert " " + Blanks(|text|) + " " == Blanks(|text| + 2);
  }

  /** Of printed text the pass leaves the blanked text exactly when it misreads nothing. */
  lemma {:induction false} PassPieces(pieces: seq<Piece>, lex: Lex)
    requires Wellformed(pieces) && Ready(lex)
    ensures Exact(Print(pieces), lex, Print(Blanked(pieces, lex)), Active(pieces, lex))
    decreases pieces, 0
  {
    hide PrintPiece, PieceOk, ActivePiece, Blank, Ready, Left;
    if pieces != [] {
      hide State;
      var next := State(PrintPiece(pieces[0]), lex);
      PassPiece(pieces[0], lex);
      BlankedKeeps(pieces[1..], next);
      if ActivePiece(pieces[0], lex) { PassPieces(pieces[1..], next); }
      PrintConcat(Blank(pieces[0], lex), Blanked(pieces[1..], next));
      ExactConcat(PrintPiece(pieces[0]), Print(pieces[1..]), lex, Print(Blank(pieces[0], lex)),
                  Print(Blanked(pieces[1..], next)), ActivePiece(pieces[0], lex), Active(pieces[1..], next));
    } else {
      NothingExact(lex);
    }
  }

  lemma NothingExact(lex: Lex)
    requires Ready(lex)
    ensures Exact("", lex, "", true)
  {
  }

  lemma {:induction false} PassPiece(p: Piece, lex: Lex)
    requires PieceOk(p) && Ready(lex)
    ensures Exact(PrintPiece(p), lex, Print(Blank(p, lex)), ActivePiece(p, lex))
    decreases p, 1
  {
    hide Exact, State, Ready, Print, PrintParts, PrintItems, Wellformed, Active, ActiveParts, Kept;
    match p
    case Single(text) =>
      PrintOne(p);
      if lex.quote == Unquoted { SingleExact(text, lex); PrintSpaces(|text| + 2); } else { LeafExact(p, lex); }
    case Double(parts) =>
      PrintOne(Double(BlankedParts(parts, State("\"", lex))));
      PassQuoted(parts, lex);
    case Group(body) =>
      PrintOne(Group(Blanked(body, State("(", lex))));
      PassBody("(", body, ")", lex);
    case Subst(body) =>
      PrintOne(Subst(Blanked(body, State("$(", lex))));
      PassBody("$(", body, ")", lex);
    case Arith(body) =>
      PrintOne(Arith(Blanked(body, State("$((", lex))));
      PassBody("$((", body, "))", lex);
    case _ =>
      PrintOne(p);
      LeafExact(p, lex);
  }

  /** Text with no substitution in it is kept as it stands, or misread. */
  lemma LeafExact(p: Piece, lex: Lex)
    requires PieceOk(p) && Ready(lex) && (p.Plain? || p.Dollar? || p.Escaped? || p.Single? || p.Backtick?)
    ensures Exact(PrintPiece(p), lex, PrintPiece(p), Kept(PrintPiece(p), lex))
  {
    hide Exact, Ready, Kept, PrintItems;
    CompletePair(PrintPiece(p));
    LastCompletes(if p.Escaped? then "" else PrintPiece(p));
    KeptExact(PrintPiece(p), lex);
  }

  lemma CompletePair(text: string)
    ensures |text| == 2 && text[0] == '\\' ==> Complete(text)
  {
    if |text| == 2 { assert text[2..] == ""; }
  }

  lemma {:induction false} PassBody(open: string, body: seq<Piece>, close: string, lex: Lex)
    requires Delimiter(open) && Delimiter(close) && Wellformed(body) && Ready(lex)
    ensures Exact(open + Print(body) + close, lex, open + Print(Blanked(body, State(open, lex))) + close,
                  Active(body, State(open, lex)))
    decreases body, 1
  {
    hide Exact, State, Ready, Print, Wellformed, Active, Delimiter;
    var inside := State(open, lex);
    BlankedKeeps(body, inside);
    if Ready(inside) { PassPieces(body, inside); }
    ExactEnclosed(open, Print(body), close, lex, Print(Blanked(body, inside)), Active(body, inside));
  }

  lemma {:induction false} PassQuoted(parts: seq<Part>, lex: Lex)
    requires PartsOk(parts) && Ready(lex)
    ensures Exact("\"" + PrintParts(parts) + "\"", lex, "\"" + PrintParts(BlankedParts(parts, State("\"", lex))) + "\"",
                  ActiveParts(parts, State("\"", lex)))
    decreases parts, 1
  {
    hide Exact, State, Ready, PrintParts, PartsOk, ActiveParts;
    var inside := State("\"", lex);
    PartsKeep(parts, inside);
    if Ready(inside) { PassParts(parts, inside); }
    ExactEnclosed("\"", PrintParts(parts), "\"", lex, PrintParts(BlankedParts(parts, inside)), ActiveParts(parts, inside));
  }

  lemma {:induction false} PassParts(parts: seq<Part>, lex: Lex)
    requires PartsOk(parts) && Ready(lex)
    ensures Exact(PrintParts(parts), lex, PrintParts(BlankedParts(parts, lex)), ActiveParts(parts, lex))
    decreases parts, 0
  {
    hide PrintPart, PartOk, ActivePart, BlankPart, Ready, Left;
    if parts != [] {
      hide State;
      var next := State(PrintPart(parts[0]), lex);
      PassPart(parts[0], lex);
      PartsKeep(parts[1..], next);
      if ActivePart(parts[0], lex) { PassParts(parts[1..], next); }
      ExactConcat(PrintPart(parts[0]), PrintParts(parts[1..]), lex, PrintPart(BlankPart(parts[0], lex)),
                  PrintParts(BlankedParts(parts[1..], next)), ActivePart(parts[0], lex), ActiveParts(parts[1..], next));
    } else {
      NothingExact(lex);
    }
  }

  lemma {:induction false} PassPart(p: Part, lex: Lex)
    requires PartOk(p) && Ready(lex)
    ensures Exact(PrintPart(p), lex, PrintPart(BlankPart(p, lex)), ActivePart(p, lex))
    decreases p, 1
  {
    hide Exact, State, Ready, Print, PrintItems, Wellformed, Active, Kept;
    if p.SubstIn? {
      PassBody("$(", p.body, ")", lex);
    } else {
      CompletePair(PrintPart(p));
      LastCompletes(if p.EscapedIn? then "" else PrintPart(p));
      KeptExact(PrintPart(p), lex);
    }
  }

  // ---- Whole statements ---------------------------------------------------

  /** Nothing, or a comment where one may start. */
  predicate Comment(text: string, lex: Lex) {
    text == "" || (text[0] == '#' && lex.edge && lex.quote == Unquoted)
  }

  lemma CommentDropped(text: string, lex: Lex)
    requires Comment(text, lex) && Ready(lex)
    ensures Left(text, lex) == ""
  {
    if text != "" { StoppedLeft(text[1..], lex.(stopped := true)); }
  }

  /** Of a whole statement, whatever its quotes are nested in, the pass leaves
      the blanked text exactly when it misreads nothing. */
  lemma ActiveCodeExact(pieces: seq<Piece>)
    requires Wellformed(pieces)
    ensures Left(Print(pieces), START) == Print(Blanked(pieces, START)) <==> Active(pieces, START)
  {
    hide Wellformed, Active, Print, Left, State;
    PassPieces(pieces, START);
  }

  /** Then, with or without a comment behind the statement, the collector returns
      the command of every substitution at any depth, in reading order, each with
      its single-quoted data blanked and nothing moved. */
  lemma StatementCommandsComplete(pieces: seq<Piece>, comment: string)
    requires Wellformed(pieces) && Active(pieces, START) && Transparent(Blanked(pieces, START))
    requires Comment(comment, State(Print(pieces), START))
    ensures Collected(Left(Print(pieces) + comment, START), 0) == Commands(Blanked(pieces, START))
    ensures Aligned(Commands(Blanked(pieces, START)), Commands(pieces))
  {
    hide Wellformed, Active, Print, Commands, Collected, Left, State, Transparent;
    PassPieces(pieces, START);
    BlankedKeeps(pieces, START);
    CommentDropped(comment, State(Print(pieces), START));
    PassConcat(Print(pieces), comment, START);
    assert Print(Blanked(pieces, START)) + "" == Print(Blanked(pieces, START));
    SubstitutionCommandsComplete(Blanked(pieces, START));
  }

  /** A statement without apostrophes and comment signs is left as it stands, with
      double quotes nested to any depth, and every command in it is collected. */
  lemma UnmarkedStatement(pieces: seq<Piece>)
    requires Wellformed(pieces) && Transparent(pieces) && '\'' !in Print(pieces) && '#' !in Print(pieces)
    ensures Left(Print(pieces), START) == Print(pieces)
    ensures Collected(Left(Print(pieces), START), 0) == Commands(pieces)
  {
    hide Print, Wellformed, Transparent, Commands, Collected, Left, Kept;
    UnmarkedKept(Print(pieces), START);
    KeptExactly(Print(pieces), START);
    SubstitutionCommandsComplete(pieces);
  }

  // ---- Where the premise is needed ------------------------------------------

  /** `"$("'$(b)")"`: a substitution in double quotes with double quotes of its own. */
  const NESTED_QUOTES := [Double([SubstIn([Double([Char('\''), SubstIn([Plain('b')])])])])]

  /** The pass takes the inner double quote for the end of the outer one and the
      apostrophe behind it for an opening quote: the text is well-formed and
      holds two commands, and none is collected. */
  lemma NestedQuotesMissed()
    ensures Wellformed(NESTED_QUOTES) && !Active(NESTED_QUOTES, START)
    ensures Print(NESTED_QUOTES) == "\"$(\"'$(b)\")\""
    ensures Commands(NESTED_QUOTES) == ["\"'$(b)\"", "b"]
    ensures Collected(Left(Print(NESTED_QUOTES), START), 0) == []
  {
    NestedQuotesText();
    NestedQuotesLeft();
    NestedQuotesMisread();
    hide Active, Wellformed, Print, Commands, Left, Collected;
    NothingCloses("\"$(\"" + Blanks(8));
  }

  lemma NestedQuotesMisread()
    ensures !Active(NESTED_QUOTES, START)
  {
    NestedQuotesText();
    NestedQuotesLeft();
    hide Active, Wellformed, Print, Commands, Left, Blanked, Blanks;
    ActiveCodeExact(NESTED_QUOTES);
    QuotedEnds(NESTED_QUOTES[0].parts);
    LastBlank(8);
  }

  lemma OneMoreBlank(n: nat)
    ensures " " + Blanks(n) == Blanks(n + 1)
  {
  }

  lemma LastBlank(n: nat)
    ensures n > 0 ==> |Blanks(n)| == n && Blanks(n)[n - 1] == ' '
  {
  }

  lemma QuotedEnds(parts: seq<Part>)
    ensures |Print(Blanked([Double(parts)], START))| > 0
    ensures var text := Print(Blanked([Double(parts)], START)); text[|text| - 1] == '"'
  {
    hide PrintParts;
    PrintOne(Double(BlankedParts(parts, State("\"", START))));
  }

  const INNER_QUOTES := [Double([Char('\''), SubstIn([Plain('b')])])]

  lemma InnerText()
    ensures Wellformed(INNER_QUOTES) && QuotedArith(INNER_QUOTES) == 0 && !INNER_QUOTES[0].Group?
    ensures Print(INNER_QUOTES) == "\"'$(b)\"" && Commands(INNER_QUOTES) == ["b"]
  {
    var b := [Plain('b')];
    PrintOne(b[0]);
    PrintOne(INNER_QUOTES[0]);
    hide Print, Commands, Wellformed, QuotedArith;
    PartsTwo(Char('\''), SubstIn(b));
  }

  lemma PartsTwo(p: Part, q: Part)
    ensures PrintParts([p, q]) == PrintPart(p) + PrintPart(q)
    ensures PartsCommands([p, q]) == PartCommands(p) + PartCommands(q)
    ensures PartsOk([p, q]) <==> PartOk(p) && PartOk(q)
    ensures ArithParts([p, q]) == (if p.ArithIn? then 1 else 0) + (if q.ArithIn? then 1 else 0)
  {
    hide PrintPart, PartCommands, PartOk;
    PartsOne(q);
    assert [p, q][1..] == [q];
  }

  lemma PartsOne(p: Part)
    ensures PrintParts([p]) == PrintPart(p) && PartsCommands([p]) == PartCommands(p)
    ensures (PartsOk([p]) <==> PartOk(p)) && ArithParts([p]) == if p.ArithIn? then 1 else 0
  {
    hide PrintPart, PartCommands, PartOk;
    assert [p][1..] == [];
    assert PrintParts([]) == "" && PartsCommands([]) == [] && PartsOk([]) && ArithParts([]) == 0;
  }

  lemma NestedQuotesText()
    ensures Wellformed(NESTED_QUOTES)
    ensures Print(NESTED_QUOTES) == "\"$(\"'$(b)\")\"" && Commands(NESTED_QUOTES) == ["\"'$(b)\"", "b"]
  {
    hide Print, Commands, Wellformed, QuotedArith;
    InnerText();
    PrintOne(NESTED_QUOTES[0]);
    var outer := [SubstIn(INNER_QUOTES)];
    assert outer[1..] == [] && PrintParts(outer) == "$(" + Print(INNER_QUOTES) + ")";
    assert PartsCommands(outer) == [Print(INNER_QUOTES)] + Commands(INNER_QUOTES);
  }

  lemma HeadKept()
    ensures Left("\"$(\"", START) == "\"$(\"" && State("\"$(\"", START) == Lex(Unquoted, false, false, false)
  {
    OneCharacter('"', START);
    OneCharacter('$', Lex(DoubleQuoted, false, false, false));
    OneCharacter('(', Lex(DoubleQuoted, false, false, false));
    OneCharacter('"', Lex(DoubleQuoted, false, true, false));
    hide Left, State;
    PassConcat("\"", "$", START);
    PassConcat("\"$", "(", START);
    PassConcat("\"$(", "\"", START);
    assert "\"" + "$" == "\"$" && "\"$" + "(" == "\"$(" && "\"$(" + "\"" == "\"$(\"";
  }

  lemma NestedQuotesLeft()
    ensures Left("\"$(\"'$(b)\")\"", START) == "\"$(\"" + Blanks(8)
  {
    hide Left, State, Blanks;
    var tail := "$(b)\")\"";
    HeadKept();
    TailBlanked(tail);
    assert |tail| + 1 == 8;
    NestedQuotesSplit();
    LeftBehind("\"$(\"", "'" + tail, START);
  }

  lemma NestedQuotesSplit()
    ensures "\"$(\"'$(b)\")\"" == "\"$(\"" + ("'" + "$(b)\")\"")
  {
  }

  lemma LeftBehind(a: string, b: string, lex: Lex)
    ensures Left(a + b, lex) == Left(a, lex) + Left(b, State(a, lex))
  {
    PassConcat(a, b, lex);
  }

  lemma TailBlanked(tail: string)
    requires '\'' !in tail
    ensures Left("'" + tail, Lex(Unquoted, false, false, false)) == Blanks(|tail| + 1)
  {
    OneCharacter('\'', Lex(Unquoted, false, false, false));
    var _ := BlankText(tail, false);
    hide Left, State, Blanks;
    PassConcat("'", tail, Lex(Unquoted, false, false, false));
    OneMoreBlank(|tail|);
  }

  /** A substitution that nothing closes ends the collection. */
  lemma NothingCloses(value: string)
    requires |value| > 3 && value[0] == '"' && value[1] == '$' && value[2] == '(' && value[3] != '('
    requires forall i :: 0 <= i < |value| ==> value[i] != ')'
    ensures Collected(value, 0) == []
  {
    PassChar(value, 0);
    assert StartsWith(value, 1, "$(") by { assert value[1..3] == "$("; }
    DollarParen(value, 1);
    hide CloseFrom;
    assert CloseFrom(value, 3, 1, Unquoted, false).None?;
  }
}
