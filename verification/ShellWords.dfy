/** A grammar of shell text, and what the substitution matcher and collector
    do on everything it prints (sections 2.2 and 2.6.3 of the POSIX.1-2017
    Shell Command Language). */
module ShellWords {
  import opened Wrappers
  import opened CommandSubstitution

  /** Text between backticks: plain characters and escaped pairs. */
  datatype Item = Raw(c: char) | EscapedRaw(c: char)

  /** Text outside double quotes. */
  datatype Piece =
    | Plain(c: char)
    | Dollar(c: char)
    | Escaped(c: char)
    | Single(text: string)
    | Double(parts: seq<Part>)
    | Group(body: seq<Piece>)
    | Backtick(items: seq<Item>)
    | Subst(body: seq<Piece>)
    | Arith(body: seq<Piece>)

  /** Text inside double quotes. */
  datatype Part =
    | Char(c: char)
    | DollarIn(c: char)
    | EscapedIn(c: char)
    | BacktickIn(items: seq<Item>)
    | SubstIn(body: seq<Piece>)
    | ArithIn(text: string)

  predicate PlainChar(c: char) { c !in "\\'\"`$()" }

  predicate QuotedChar(c: char) { c !in "\\\"`$" }

  // ---- Printing -----------------------------------------------------------

  function PrintItems(items: seq<Item>): string {
    if items == [] then "" else
      (match items[0] case Raw(c) => [c] case EscapedRaw(c) => ['\\', c]) + PrintItems(items[1..])
  }

  function Print(pieces: seq<Piece>): string
    decreases pieces, 0
  {
    if pieces == [] then "" else PrintPiece(pieces[0]) + Print(pieces[1..])
  }

  function PrintPiece(p: Piece): string
    decreases p, 1
  {
    match p
    case Plain(c) => [c]
    case Dollar(c) => ['$', c]
    case Escaped(c) => ['\\', c]
    case Single(text) => "'" + text + "'"
    case Double(parts) => "\"" + PrintParts(parts) + "\""
    case Group(body) => "(" + Print(body) + ")"
    case Backtick(items) => "`" + PrintItems(items) + "`"
    case Subst(body) => "$(" + Print(body) + ")"
    case Arith(body) => "$((" + Print(body) + "))"
  }

  function PrintParts(parts: seq<Part>): string
    decreases parts, 0
  {
    if parts == [] then "" else PrintPart(parts[0]) + PrintParts(parts[1..])
  }

  function PrintPart(p: Part): string
    decreases p, 1
  {
    match p
    case Char(c) => [c]
    case DollarIn(c) => ['$', c]
    case EscapedIn(c) => ['\\', c]
    case BacktickIn(items) => "`" + PrintItems(items) + "`"
    case SubstIn(body) => "$(" + Print(body) + ")"
    case ArithIn(text) => "$((" + text + "))"
  }

  // ---- Well-formed text ---------------------------------------------------

  predicate ItemsOk(items: seq<Item>) {
    forall i :: 0 <= i < |items| && items[i].Raw? ==> items[i].c != '\\' && items[i].c != '`'
  }

  predicate Wellformed(pieces: seq<Piece>)
    decreases pieces, 0
  {
    pieces != [] ==> PieceOk(pieces[0]) && Wellformed(pieces[1..])
  }

  /** A substitution does not begin with a group: that spelling is arithmetic. */
  predicate PieceOk(p: Piece)
    decreases p, 1
  {
    match p
    case Plain(c) => PlainChar(c)
    case Dollar(c) => PlainChar(c)
    case Escaped(_) => true
    case Single(text) => '\'' !in text
    case Double(parts) => PartsOk(parts)
    case Group(body) => Wellformed(body)
    case Backtick(items) => ItemsOk(items)
    case Subst(body) => Wellformed(body) && (body != [] ==> !body[0].Group?)
    case Arith(body) => Wellformed(body)
  }

  predicate PartsOk(parts: seq<Part>)
    decreases parts, 0
  {
    parts != [] ==> PartOk(parts[0]) && PartsOk(parts[1..])
  }

  predicate PartOk(p: Part)
    decreases p, 1
  {
    match p
    case Char(c) => QuotedChar(c)
    case DollarIn(c) => QuotedChar(c) && c != '('
    case EscapedIn(_) => true
    case BacktickIn(items) => ItemsOk(items)
    case SubstIn(body) => Wellformed(body) && QuotedArith(body) == 0 && (body != [] ==> !body[0].Group?)
    case ArithIn(text) => forall c :: c in text ==> QuotedChar(c)
  }

  /** How many arithmetic expansions stand inside double quotes, in substitutions
      nested outside quotes too; those nested inside double quotes have none. */
  function QuotedArith(pieces: seq<Piece>): nat
    decreases pieces, 0
  {
    if pieces == [] then 0 else QuotedArithIn(pieces[0]) + QuotedArith(pieces[1..])
  }

  function QuotedArithIn(p: Piece): nat
    decreases p, 1
  {
    match p
    case Double(parts) => ArithParts(parts)
    case Group(body) => QuotedArith(body)
    case Subst(body) => QuotedArith(body)
    case Arith(body) => QuotedArith(body)
    case _ => 0
  }

  function ArithParts(parts: seq<Part>): nat {
    if parts == [] then 0 else (if parts[0].ArithIn? then 1 else 0) + ArithParts(parts[1..])
  }

  // ---- Scanning printed text ----------------------------------------------

  lemma StartsWithConcat(value: string, index: nat, a: string, b: string)
    requires StartsWith(value, index, a + b)
    ensures StartsWith(value, index, a) && StartsWith(value, index + |a|, b)
  {
    var whole := value[index..index + |a + b|];
    assert value[index..index + |a|] == whole[..|a|];
    assert value[index + |a|..index + |a| + |b|] == whole[|a|..];
  }

  lemma CharAt(value: string, index: nat, text: string, k: nat)
    requires StartsWith(value, index, text) && k < |text|
    ensures index + k < |value| && value[index + k] == text[k]
  {
    assert value[index..index + |text|][k] == text[k];
  }

  lemma DollarParen(value: string, index: nat)
    ensures StartsWith(value, index, "$(") ==>
      index + 1 < |value| && value[index] == '$' && value[index + 1] == '('
    ensures StartsWith(value, index, "$((") ==>
      index + 2 < |value| && value[index] == '$' && value[index + 1] == '(' && value[index + 2] == '('
  {
    if StartsWith(value, index, "$(") { CharAt(value, index, "$(", 0); CharAt(value, index, "$(", 1); }
    if StartsWith(value, index, "$((") {
      CharAt(value, index, "$((", 0);
      CharAt(value, index, "$((", 1);
      CharAt(value, index, "$((", 2);
    }
  }

  lemma OneStep(value: string, index: nat, depth: nat, quote: Quote, escaped: bool)
    requires depth > 0 && index < |value|
    ensures CloseFrom(value, index, depth, quote, escaped) == CloseStep(value, index, depth, quote, escaped)
  {
    hide CloseStep;
  }

  /** Characters with no role in the given quoting are stepped over. */
  lemma StepOver(value: string, index: nat, depth: nat, quote: Quote)
    requires depth > 0 && index < |value|
    requires match quote
             case Unquoted => PlainChar(value[index])
             case SingleQuoted => value[index] != '\''
             case DoubleQuoted => QuotedChar(value[index])
    ensures CloseFrom(value, index, depth, quote, false) == CloseFrom(value, index + 1, depth, quote, false)
  {
    hide CloseFrom, BacktickFrom;
    OneStep(value, index, depth, quote, false);
    DollarParen(value, index);
  }

  lemma StepDollar(value: string, index: nat, depth: nat, quote: Quote)
    requires depth > 0 && index + 1 < |value| && quote != SingleQuoted
    requires value[index] == '$' && value[index + 1] != '('
    ensures CloseFrom(value, index, depth, quote, false) == CloseFrom(value, index + 1, depth, quote, false)
  {
    hide CloseFrom, BacktickFrom;
    OneStep(value, index, depth, quote, false);
    DollarParen(value, index);
  }

  lemma StepEscape(value: string, index: nat, depth: nat, quote: Quote)
    requires depth > 0 && index + 1 < |value| && quote != SingleQuoted && value[index] == '\\'
    ensures CloseFrom(value, index, depth, quote, false) == CloseFrom(value, index + 2, depth, quote, false)
  {
    hide CloseFrom;
    OneStep(value, index, depth, quote, false);
    OneStep(value, index + 1, depth, quote, true);
  }

  function Toggled(quote: Quote, c: char): Quote {
    match quote
    case Unquoted => if c == '"' then DoubleQuoted else SingleQuoted
    case _ => Unquoted
  }

  lemma StepQuote(value: string, index: nat, depth: nat, quote: Quote)
    requires depth > 0 && index < |value|
    requires match quote
             case Unquoted => value[index] == '"' || value[index] == '\''
             case SingleQuoted => value[index] == '\''
             case DoubleQuoted => value[index] == '"'
    ensures CloseFrom(value, index, depth, quote, false)
         == CloseFrom(value, index + 1, depth, Toggled(quote, value[index]), false)
  {
    hide CloseFrom, BacktickFrom;
    OneStep(value, index, depth, quote, false);
  }

  lemma StepParen(value: string, index: nat, depth: nat)
    requires depth > 0 && index < |value|
    ensures value[index] == '(' ==>
      CloseFrom(value, index, depth, Unquoted, false) == CloseFrom(value, index + 1, depth + 1, Unquoted, false)
    ensures value[index] == ')' && depth > 1 ==>
      CloseFrom(value, index, depth, Unquoted, false) == CloseFrom(value, index + 1, depth - 1, Unquoted, false)
    ensures value[index] == ')' && depth == 1 ==> CloseFrom(value, index, depth, Unquoted, false) == Some(index)
  {
    hide CloseFrom, BacktickFrom;
    OneStep(value, index, depth, Unquoted, false);
    DollarParen(value, index);
  }

  lemma StepBacktick(value: string, index: nat, items: seq<Item>, depth: nat, quote: Quote)
    requires depth > 0 && quote != SingleQuoted && ItemsOk(items)
    requires StartsWith(value, index, "`" + PrintItems(items) + "`")
    ensures CloseFrom(value, index, depth, quote, false)
         == CloseFrom(value, index + |PrintItems(items)| + 2, depth, quote, false)
    ensures index < |value| && value[index] == '`'
    ensures BacktickFrom(value, index + 1, false) == Some(index + 1 + |PrintItems(items)|)
  {
    hide CloseFrom, BacktickFrom;
    assert "`" + PrintItems(items) + "`" == "`" + (PrintItems(items) + "`");
    StartsWithConcat(value, index, "`", PrintItems(items) + "`");
    CharAt(value, index, "`", 0);
    ScanItems(value, index + 1, items);
    OneStep(value, index, depth, quote, false);
    DollarParen(value, index);
  }

  lemma StepArith(value: string, index: nat, depth: nat, quote: Quote)
    requires depth > 0 && quote != SingleQuoted && StartsWith(value, index, "$((")
    ensures CloseFrom(value, index, depth, quote, false) == CloseFrom(value, index + 3, depth + 2, quote, false)
  {
    hide CloseFrom, BacktickFrom;
    CharAt(value, index, "$((", 0);
    OneStep(value, index, depth, quote, false);
  }

  lemma StepSubst(value: string, index: nat, depth: nat, quote: Quote, end: nat)
    requires depth > 0 && quote != SingleQuoted && StartsWith(value, index, "$(")
    requires index + 2 < |value| && value[index + 2] != '('
    requires CloseFrom(value, index + 2, 1, Unquoted, false) == Some(end)
    ensures CloseFrom(value, index, depth, quote, false) == CloseFrom(value, end + 1, depth, quote, false)
    ensures !StartsWith(value, index, "$((")
  {
    hide CloseFrom, BacktickFrom;
    OneStep(value, index, depth, quote, false);
    CharAt(value, index, "$(", 0);
    DollarParen(value, index);
  }

  /** Backtick text is skipped up to its closing backtick. */
  lemma {:induction false} ScanItems(value: string, index: nat, items: seq<Item>)
    requires ItemsOk(items) && StartsWith(value, index, PrintItems(items) + "`")
    ensures BacktickFrom(value, index, false) == Some(index + |PrintItems(items)|)
    decreases |items|
  {
    if items == [] {
      CharAt(value, index, "`", 0);
      assert PrintItems(items) + "`" == "`";
    } else {
      var head := match items[0] case Raw(c) => [c] case EscapedRaw(c) => ['\\', c];
      assert PrintItems(items) + "`" == head + (PrintItems(items[1..]) + "`");
      StartsWithConcat(value, index, head, PrintItems(items[1..]) + "`");
      CharAt(value, index, head, 0);
      ScanItems(value, index + |head|, items[1..]);
    }
  }

  /** Text without a role in its quoting is skipped whole. */
  lemma {:induction false} ScanText(value: string, index: nat, text: string, depth: nat, quote: Quote)
    requires depth > 0 && StartsWith(value, index, text)
    requires match quote
             case Unquoted => forall c :: c in text ==> PlainChar(c)
             case SingleQuoted => '\'' !in text
             case DoubleQuoted => forall c :: c in text ==> QuotedChar(c)
    ensures CloseFrom(value, index, depth, quote, false) == CloseFrom(value, index + |text|, depth, quote, false)
    decreases |text|
  {
    hide CloseFrom;
    if text != "" {
      CharAt(value, index, text, 0);
      assert text[0] in text;
      StepOver(value, index, depth, quote);
      assert text == text[..1] + text[1..];
      StartsWithConcat(value, index, text[..1], text[1..]);
      ScanText(value, index + 1, text[1..], depth, quote);
    }
  }

  /** The text of a substitution starts with `$(` but not with `$((`. */
  lemma NotArithmetic(body: seq<Piece>)
    requires Wellformed(body) && (body != [] ==> !body[0].Group?)
    ensures (Print(body) + ")")[0] != '('
  {
    if body != [] {
      assert Print(body) == PrintPiece(body[0]) + Print(body[1..]);
    }
  }

  /** The scan passes over printed text; only quoted arithmetic leaves a trace, two levels each. */
  lemma {:induction false} ScanPieces(value: string, index: nat, pieces: seq<Piece>, depth: nat)
    requires depth > 0 && Wellformed(pieces) && StartsWith(value, index, Print(pieces))
    ensures CloseFrom(value, index, depth, Unquoted, false)
         == CloseFrom(value, index + |Print(pieces)|, depth + 2 * QuotedArith(pieces), Unquoted, false)
    decreases pieces, 0
  {
    hide CloseFrom, PrintPiece, PieceOk, QuotedArithIn, StartsWith;
    if pieces != [] {
      StartsWithConcat(value, index, PrintPiece(pieces[0]), Print(pieces[1..]));
      ScanPiece(value, index, pieces[0], depth);
      ScanPieces(value, index + |PrintPiece(pieces[0])|, pieces[1..], depth + 2 * QuotedArithIn(pieces[0]));
    }
  }

  lemma {:induction false} ScanPiece(value: string, index: nat, p: Piece, depth: nat)
    requires depth > 0 && PieceOk(p) && StartsWith(value, index, PrintPiece(p))
    ensures CloseFrom(value, index, depth, Unquoted, false)
         == CloseFrom(value, index + |PrintPiece(p)|, depth + 2 * QuotedArithIn(p), Unquoted, false)
    decreases p, 1
  {
    hide CloseFrom, StartsWith, Print, PrintParts, PrintItems, Wellformed, PartsOk, ItemsOk, QuotedArith, ArithParts;
    var text := PrintPiece(p);
    CharAt(value, index, text, 0);
    match p
    case Plain(c) =>
      StepOver(value, index, depth, Unquoted);
    case Dollar(c) =>
      CharAt(value, index, text, 1);
      StepDollar(value, index, depth, Unquoted);
      StepOver(value, index + 1, depth, Unquoted);
    case Escaped(c) =>
      CharAt(value, index, text, 1);
      StepEscape(value, index, depth, Unquoted);
    case Single(inner) =>
      SkipSingle(value, index, inner, depth);
    case Double(parts) =>
      SkipDouble(value, index, parts, depth);
    case Group(body) =>
      SkipGroup(value, index, body, depth);
    case Backtick(items) =>
      StepBacktick(value, index, items, depth, Unquoted);
    case Subst(body) =>
      SkipNested(value, index, body, depth);
    case Arith(body) =>
      SkipArith(value, index, body, depth);
  }

  lemma SkipSingle(value: string, index: nat, text: string, depth: nat)
    requires depth > 0 && '\'' !in text && StartsWith(value, index, "'" + text + "'")
    ensures CloseFrom(value, index, depth, Unquoted, false)
         == CloseFrom(value, index + |text| + 2, depth, Unquoted, false)
  {
    hide CloseFrom, StartsWith;
    assert "'" + text + "'" == "'" + (text + "'");
    StartsWithConcat(value, index, "'", text + "'");
    StartsWithConcat(value, index + 1, text, "'");
    CharAt(value, index, "'", 0);
    CharAt(value, index + 1 + |text|, "'", 0);
    StepQuote(value, index, depth, Unquoted);
    ScanText(value, index + 1, text, depth, SingleQuoted);
    StepQuote(value, index + 1 + |text|, depth, SingleQuoted);
  }

  lemma {:induction false} SkipDouble(value: string, index: nat, parts: seq<Part>, depth: nat)
    requires depth > 0 && PartsOk(parts) && StartsWith(value, index, "\"" + PrintParts(parts) + "\"")
    ensures CloseFrom(value, index, depth, Unquoted, false)
         == CloseFrom(value, index + |PrintParts(parts)| + 2, depth + 2 * ArithParts(parts), Unquoted, false)
    decreases parts, 1
  {
    hide CloseFrom, StartsWith, PrintParts, PartsOk, ArithParts;
    var text := PrintParts(parts);
    assert "\"" + text + "\"" == "\"" + (text + "\"");
    StartsWithConcat(value, index, "\"", text + "\"");
    StartsWithConcat(value, index + 1, text, "\"");
    CharAt(value, index, "\"", 0);
    CharAt(value, index + 1 + |text|, "\"", 0);
    StepQuote(value, index, depth, Unquoted);
    ScanParts(value, index + 1, parts, depth);
    StepQuote(value, index + 1 + |text|, depth + 2 * ArithParts(parts), DoubleQuoted);
  }

  lemma {:induction false} SkipGroup(value: string, index: nat, body: seq<Piece>, depth: nat)
    requires depth > 0 && Wellformed(body) && StartsWith(value, index, "(" + Print(body) + ")")
    ensures CloseFrom(value, index, depth, Unquoted, false)
         == CloseFrom(value, index + |Print(body)| + 2, depth + 2 * QuotedArith(body), Unquoted, false)
    decreases body, 1
  {
    hide CloseFrom, StartsWith, Print, Wellformed, QuotedArith;
    var text := Print(body);
    assert "(" + text + ")" == "(" + (text + ")");
    StartsWithConcat(value, index, "(", text + ")");
    StartsWithConcat(value, index + 1, text, ")");
    CharAt(value, index, "(", 0);
    CharAt(value, index + 1 + |text|, ")", 0);
    StepParen(value, index, depth);
    ScanPieces(value, index + 1, body, depth + 1);
    StepParen(value, index + 1 + |text|, depth + 1 + 2 * QuotedArith(body));
  }

  lemma {:induction false} SkipArith(value: string, index: nat, body: seq<Piece>, depth: nat)
    requires depth > 0 && Wellformed(body) && StartsWith(value, index, "$((" + Print(body) + "))")
    ensures CloseFrom(value, index, depth, Unquoted, false)
         == CloseFrom(value, index + |Print(body)| + 5, depth + 2 * QuotedArith(body), Unquoted, false)
    decreases body, 1
  {
    hide CloseFrom, StartsWith, Print, Wellformed, QuotedArith;
    var text := Print(body);
    assert "$((" + text + "))" == "$((" + (text + "))");
    StartsWithConcat(value, index, "$((", text + "))");
    StartsWithConcat(value, index + 3, text, "))");
    CharAt(value, index + 3 + |text|, "))", 0);
    CharAt(value, index + 3 + |text|, "))", 1);
    StepArith(value, index, depth, Unquoted);
    ScanPieces(value, index + 3, body, depth + 2);
    StepParen(value, index + 3 + |text|, depth + 2 + 2 * QuotedArith(body));
    StepParen(value, index + 4 + |text|, depth + 1 + 2 * QuotedArith(body));
  }

  /** Closing a + b levels is closing a of them and then, outside quotes, b. */
  lemma {:induction false} LevelsAdd(value: string, index: nat, a: nat, b: nat, quote: Quote, escaped: bool)
    requires a > 0 && b > 0
    ensures CloseFrom(value, index, a + b, quote, escaped)
         == Onward(value, CloseFrom(value, index, a, quote, escaped), b)
    decreases |value| - index
  {
    hide CloseFrom, BacktickFrom, StartsWith;
    if index < |value| {
      OneStep(value, index, a, quote, escaped);
      OneStep(value, index, a + b, quote, escaped);
      match QuoteStep(value[index], index, quote, escaped)
      case Some((next, quote', escaped')) => LevelsAdd(value, next, a, b, quote', escaped');
      case None =>
        match NestedConstruct(value, index)
        case Unterminated =>
        case Skip(next, depthDelta) => LevelsAdd(value, next, a + depthDelta, b, quote, false);
        case NotNested =>
          if quote == Unquoted && value[index] == '(' {
            LevelsAdd(value, index + 1, a + 1, b, quote, false);
          } else if quote == Unquoted && value[index] == ')' {
            if a > 1 { LevelsAdd(value, index + 1, a - 1, b, quote, false); }
          } else {
            LevelsAdd(value, index + 1, a, b, quote, false);
          }
    } else {
      ClosedBeyond(value, index, a, quote, escaped);
      ClosedBeyond(value, index, a + b, quote, escaped);
    }
  }

  /** The scan that goes on behind a parenthesis, if there was one. */
  function Onward(value: string, end: Option<nat>, depth: nat): Option<nat>
    requires depth > 0
  {
    if end.None? then None else CloseFrom(value, end.value + 1, depth, Unquoted, false)
  }

  /** Outside quotes a nested substitution is one more level. */
  lemma StepNested(value: string, index: nat, depth: nat)
    requires depth > 0 && StartsWith(value, index, "$(") && index + 2 < |value| && value[index + 2] != '('
    ensures CloseFrom(value, index, depth, Unquoted, false) == CloseFrom(value, index + 2, depth + 1, Unquoted, false)
  {
    hide CloseFrom;
    LevelsAdd(value, index + 2, 1, depth, Unquoted, false);
    OneStep(value, index, depth, Unquoted, false);
    CharAt(value, index, "$(", 0);
    DollarParen(value, index);
  }

  lemma {:induction false} SkipNested(value: string, index: nat, body: seq<Piece>, depth: nat)
    requires depth > 0 && Wellformed(body) && (body != [] ==> !body[0].Group?)
    requires StartsWith(value, index, "$(" + Print(body) + ")")
    ensures CloseFrom(value, index, depth, Unquoted, false)
         == CloseFrom(value, index + |Print(body)| + 3, depth + 2 * QuotedArith(body), Unquoted, false)
    decreases body, 1
  {
    hide CloseFrom, StartsWith, Print, Wellformed, QuotedArith;
    var text := Print(body);
    assert "$(" + text + ")" == "$(" + (text + ")");
    StartsWithConcat(value, index, "$(", text + ")");
    NotArithmetic(body);
    CharAt(value, index + 2, text + ")", 0);
    StartsWithConcat(value, index + 2, text, ")");
    CharAt(value, index + 2 + |text|, ")", 0);
    StepNested(value, index, depth);
    ScanPieces(value, index + 2, body, depth + 1);
    StepParen(value, index + 2 + |text|, depth + 1 + 2 * QuotedArith(body));
  }

  lemma {:induction false} SkipSubst(value: string, index: nat, body: seq<Piece>, depth: nat, quote: Quote)
    requires depth > 0 && quote != SingleQuoted
    requires Wellformed(body) && QuotedArith(body) == 0 && (body != [] ==> !body[0].Group?)
    requires StartsWith(value, index, "$(" + Print(body) + ")")
    ensures CloseFrom(value, index, depth, quote, false)
         == CloseFrom(value, index + |Print(body)| + 3, depth, quote, false)
    ensures CloseFrom(value, index + 2, 1, Unquoted, false) == Some(index + 2 + |Print(body)|)
    ensures !StartsWith(value, index, "$((") && StartsWith(value, index, "$(")
    decreases body, 2
  {
    hide CloseFrom, StartsWith, Print, Wellformed, QuotedArith;
    var text := Print(body);
    assert "$(" + text + ")" == "$(" + (text + ")");
    StartsWithConcat(value, index, "$(", text + ")");
    NotArithmetic(body);
    CharAt(value, index + 2, text + ")", 0);
    StartsWithConcat(value, index + 2, text, ")");
    CharAt(value, index + 2 + |text|, ")", 0);
    ScanPieces(value, index + 2, body, 1);
    StepParen(value, index + 2 + |text|, 1);
    StepSubst(value, index, depth, quote, index + 2 + |text|);
  }

  lemma {:induction false} ScanParts(value: string, index: nat, parts: seq<Part>, depth: nat)
    requires depth > 0 && PartsOk(parts) && StartsWith(value, index, PrintParts(parts))
    ensures CloseFrom(value, index, depth, DoubleQuoted, false)
         == CloseFrom(value, index + |PrintParts(parts)|, depth + 2 * ArithParts(parts), DoubleQuoted, false)
    decreases parts, 0
  {
    hide CloseFrom, PrintPart, PartOk, StartsWith;
    if parts != [] {
      StartsWithConcat(value, index, PrintPart(parts[0]), PrintParts(parts[1..]));
      ScanPart(value, index, parts[0], depth);
      ScanParts(value, index + |PrintPart(parts[0])|, parts[1..], depth + if parts[0].ArithIn? then 2 else 0);
    }
  }

  lemma {:induction false} ScanPart(value: string, index: nat, p: Part, depth: nat)
    requires depth > 0 && PartOk(p) && StartsWith(value, index, PrintPart(p))
    ensures CloseFrom(value, index, depth, DoubleQuoted, false)
         == CloseFrom(value, index + |PrintPart(p)|, depth + (if p.ArithIn? then 2 else 0), DoubleQuoted, false)
    decreases p, 1
  {
    hide CloseFrom, StartsWith, Print, PrintItems, Wellformed, ItemsOk, QuotedArith;
    var text := PrintPart(p);
    CharAt(value, index, text, 0);
    match p
    case Char(c) =>
      StepOver(value, index, depth, DoubleQuoted);
    case DollarIn(c) =>
      CharAt(value, index, text, 1);
      StepDollar(value, index, depth, DoubleQuoted);
      StepOver(value, index + 1, depth, DoubleQuoted);
    case EscapedIn(c) =>
      CharAt(value, index, text, 1);
      StepEscape(value, index, depth, DoubleQuoted);
    case BacktickIn(items) =>
      StepBacktick(value, index, items, depth, DoubleQuoted);
    case SubstIn(body) =>
      SkipSubst(value, index, body, depth, DoubleQuoted);
    case ArithIn(inner) =>
      assert text == "$((" + (inner + "))");
      StartsWithConcat(value, index, "$((", inner + "))");
      StepArith(value, index, depth, DoubleQuoted);
      ScanText(value, index + 3, inner + "))", depth + 2, DoubleQuoted);
  }

  /** Whatever precedes and follows it, the matcher returns the parenthesis
      that closes the printed substitution. */
  lemma SubstitutionEndFound(value: string, start: nat, body: seq<Piece>)
    requires Wellformed(body) && QuotedArith(body) == 0
    requires StartsWith(value, start, "$(" + Print(body) + ")")
    ensures CloseFrom(value, start + 2, 1, Unquoted, false) == Some(start + 2 + |Print(body)|)
  {
    ScanBody(value, start, body);
  }

  /** Arithmetic in double quotes is the exception: under any prefix and suffix
      the closing parenthesis is found exactly when there is none of it, neither
      in the body nor in a substitution nested in it outside quotes.
      With nothing after the substitution no end is found at all. */
  lemma SubstitutionEndFoundExactly(value: string, start: nat, body: seq<Piece>)
    requires Wellformed(body) && StartsWith(value, start, "$(" + Print(body) + ")")
    ensures CloseFrom(value, start + 2, 1, Unquoted, false) == Some(start + 2 + |Print(body)|) <==> QuotedArith(body) == 0
    ensures QuotedArith(body) > 0 && |value| == start + |Print(body)| + 3 ==>
      CloseFrom(value, start + 2, 1, Unquoted, false) == None
  {
    ScanBody(value, start, body);
  }

  lemma ScanBody(value: string, start: nat, body: seq<Piece>)
    requires Wellformed(body) && StartsWith(value, start, "$(" + Print(body) + ")")
    ensures var close := start + 2 + |Print(body)|; var excess := 2 * QuotedArith(body);
      CloseFrom(value, start + 2, 1, Unquoted, false)
      == if excess == 0 then Some(close) else CloseFrom(value, close + 1, excess, Unquoted, false)
    ensures QuotedArith(body) > 0 && |value| == start + |Print(body)| + 3 ==>
      CloseFrom(value, start + 2, 1, Unquoted, false) == None
  {
    hide StartsWith, Print, Wellformed, QuotedArith, CloseFrom;
    var index, text := start + 2, Print(body);
    assert "$(" + text + ")" == "$(" + (text + ")");
    StartsWithConcat(value, start, "$(", text + ")");
    StartsWithConcat(value, index, text, ")");
    CharAt(value, index + |text|, ")", 0);
    ScanPieces(value, index, body, 1);
    StepParen(value, index + |text|, 1 + 2 * QuotedArith(body));
    if QuotedArith(body) > 0 { ClosedBeyond(value, index + |text| + 1, 2 * QuotedArith(body), Unquoted, false); }
  }

  lemma ClosedBeyond(value: string, index: nat, depth: nat, quote: Quote, escaped: bool)
    ensures index >= |value| && depth > 0 ==> CloseFrom(value, index, depth, quote, escaped) == None
  {
  }

  function Closings(n: nat): string { seq(n, i => ')') }

  lemma {:induction false} ScanClosings(value: string, index: nat, n: nat)
    requires n > 0 && StartsWith(value, index, Closings(n))
    ensures CloseFrom(value, index, n, Unquoted, false) == Some(index + n - 1)
    decreases n
  {
    hide CloseFrom;
    CharAt(value, index, Closings(n), 0);
    StepParen(value, index, n);
    if n > 1 {
      assert Closings(n) == ")" + Closings(n - 1);
      StartsWithConcat(value, index, ")", Closings(n - 1));
      ScanClosings(value, index + 1, n - 1);
    }
  }

  /** Why substitutions inside double quotes are left out: the levels one leaves
      open are closed by parentheses that are plain text behind it, two for each
      arithmetic expansion, and the scan is none the worse for them. */
  lemma PlainParenthesesClose(value: string, index: nat, body: seq<Piece>, depth: nat)
    requires depth > 0 && Wellformed(body) && (body != [] ==> !body[0].Group?)
    requires StartsWith(value, index, "$(" + Print(body) + Closings(1 + 2 * QuotedArith(body)))
    ensures CloseFrom(value, index, depth, DoubleQuoted, false)
         == CloseFrom(value, index + |Print(body)| + 3 + 2 * QuotedArith(body), depth, DoubleQuoted, false)
  {
    hide CloseFrom, StartsWith, Print, Wellformed, QuotedArith;
    var text, closings := Print(body), Closings(1 + 2 * QuotedArith(body));
    assert "$(" + text + closings == "$(" + (text + closings);
    assert closings == ")" + Closings(2 * QuotedArith(body));
    assert text + closings == (text + ")") + Closings(2 * QuotedArith(body));
    StartsWithConcat(value, index, "$(", text + closings);
    StartsWithConcat(value, index + 2, text, closings);
    StartsWithConcat(value, index + 2, text + ")", Closings(2 * QuotedArith(body)));
    NotArithmetic(body);
    CharAt(value, index + 2, text + ")", 0);
    ScanPieces(value, index + 2, body, 1);
    ScanClosings(value, index + 2 + |text|, 1 + 2 * QuotedArith(body));
    StepSubst(value, index, depth, DoubleQuoted, index + 2 + |text| + 2 * QuotedArith(body));
  }

  // ---- Collecting the substituted commands --------------------------------

  /** Text in which the collector, which does not know quotes, finds nothing to collect. */
  predicate Quiet(text: string) {
    if text == "" then true
    else if text[0] == '\\' then |text| > 1 && Quiet(text[2..])
    else if StartsWith(text, 0, "$((") then Quiet(text[3..])
    else text[0] != '`' && !StartsWith(text, 0, "$(") && Quiet(text[1..])
  }

  /** Single-quoted and backticked text is quiet, and every substitution ends
      where the matcher finds its end. */
  predicate Transparent(pieces: seq<Piece>)
    decreases pieces, 0
  {
    pieces != [] ==> TransparentPiece(pieces[0]) && Transparent(pieces[1..])
  }

  predicate TransparentPiece(p: Piece)
    decreases p, 1
  {
    match p
    case Single(text) => Quiet("'" + text + "'")
    case Double(parts) => TransparentParts(parts)
    case Group(body) => Transparent(body)
    case Backtick(items) => Quiet(PrintItems(items))
    case Subst(body) => Transparent(body) && QuotedArith(body) == 0
    case Arith(body) => Transparent(body)
    case _ => true
  }

  predicate TransparentParts(parts: seq<Part>)
    decreases parts, 0
  {
    parts != [] ==>
      (match parts[0]
       case BacktickIn(items) => Quiet(PrintItems(items))
       case SubstIn(body) => Transparent(body)
       case _ => true) && TransparentParts(parts[1..])
  }

  /** The commands a reader sees in the text, outermost first, left to right. */
  function Commands(pieces: seq<Piece>): seq<string>
    decreases pieces, 0
  {
    if pieces == [] then [] else PieceCommands(pieces[0]) + Commands(pieces[1..])
  }

  function PieceCommands(p: Piece): seq<string>
    decreases p, 1
  {
    match p
    case Double(parts) => PartsCommands(parts)
    case Group(body) => Commands(body)
    case Backtick(items) => [PrintItems(items)]
    case Subst(body) => [Print(body)] + Commands(body)
    case Arith(body) => Commands(body)
    case _ => []
  }

  function PartsCommands(parts: seq<Part>): seq<string>
    decreases parts, 0
  {
    if parts == [] then [] else PartCommands(parts[0]) + PartsCommands(parts[1..])
  }

  function PartCommands(p: Part): seq<string>
    decreases p, 1
  {
    match p
    case BacktickIn(items) => [PrintItems(items)]
    case SubstIn(body) => [Print(body)] + Commands(body)
    case _ => []
  }

  lemma PassChar(value: string, index: nat)
    requires index < |value|
    requires Inert(value[index]) || (value[index] == '$' && index + 1 < |value| && value[index + 1] != '(')
    ensures Collected(value, index) == Collected(value, index + 1)
  {
    DollarParen(value, index);
  }

  lemma {:induction false} PassText(value: string, index: nat, text: string)
    requires StartsWith(value, index, text) && forall c :: c in text ==> Inert(c)
    ensures Collected(value, index) == Collected(value, index + |text|)
    decreases |text|
  {
    hide Collected, StartsWith;
    if text != "" {
      CharAt(value, index, text, 0);
      assert text[0] in text;
      PassChar(value, index);
      assert text == text[..1] + text[1..];
      StartsWithConcat(value, index, text[..1], text[1..]);
      PassText(value, index + 1, text[1..]);
    }
  }

  lemma PassArith(value: string, index: nat)
    requires StartsWith(value, index, "$((")
    ensures Collected(value, index) == Collected(value, index + 3)
  {
    DollarParen(value, index);
  }

  lemma PassEscape(value: string, index: nat)
    requires index + 1 < |value| && value[index] == '\\'
    ensures Collected(value, index) == Collected(value, index + 2)
  {
  }

  lemma TakeSubstituted(value: string, index: nat, end: nat)
    requires StartsWith(value, index, "$(") && !StartsWith(value, index, "$((")
    requires CloseFrom(value, index + 2, 1, Unquoted, false) == Some(end)
    ensures Collected(value, index)
         == [value[index + 2..end]] + Collected(value[index + 2..end], 0) + Collected(value, end + 1)
  {
    hide CloseFrom;
    DollarParen(value, index);
  }

  lemma TakeSubst(value: string, index: nat, body: seq<Piece>)
    requires Wellformed(body) && QuotedArith(body) == 0 && (body != [] ==> !body[0].Group?)
    requires StartsWith(value, index, "$(" + Print(body) + ")")
    ensures Collected(value, index)
         == [Print(body)] + Collected(Print(body), 0) + Collected(value, index + |Print(body)| + 3)
  {
    hide Print, Wellformed, QuotedArith, CloseFrom, Collected;
    var text := Print(body);
    SkipSubst(value, index, body, 1, Unquoted);
    assert "$(" + text + ")" == "$(" + (text + ")");
    StartsWithConcat(value, index, "$(", text + ")");
    StartsWithConcat(value, index + 2, text, ")");
    TakeSubstituted(value, index, index + 2 + |text|);
  }

  /** The collector passes over quiet text; only a dollar sign at its end could combine with what follows. */
  lemma {:induction false} PassQuiet(value: string, index: nat, text: string)
    requires StartsWith(value, index, text) && Quiet(text)
    requires text != "" && text[|text| - 1] == '$' ==> index + |text| == |value|
    ensures Collected(value, index) == Collected(value, index + |text|)
    decreases |text|
  {
    hide Collected, Quiet, StartsWith;
    if text != "" {
      var n := if text[0] == '\\' then 2 else if StartsWith(text, 0, "$((") then 3 else 1;
      QuietTail(text, n);
      QuietHead(value, index, text, n);
      assert text == text[..n] + text[n..];
      StartsWithConcat(value, index, text[..n], text[n..]);
      PassQuiet(value, index + n, text[n..]);
    }
  }

  lemma QuietTail(text: string, n: nat)
    requires text != "" && Quiet(text)
    requires n == if text[0] == '\\' then 2 else if StartsWith(text, 0, "$((") then 3 else 1
    ensures n <= |text| && Quiet(text[n..])
  {
  }

  lemma QuietHead(value: string, index: nat, text: string, n: nat)
    requires StartsWith(value, index, text) && text != "" && Quiet(text)
    requires text[|text| - 1] == '$' ==> index + |text| == |value|
    requires n == if text[0] == '\\' then 2 else if StartsWith(text, 0, "$((") then 3 else 1
    ensures Collected(value, index) == Collected(value, index + n)
  {
    hide CloseFrom, BacktickFrom;
    CharAt(value, index, text, 0);
    DollarParen(value, index);
    DollarParen(text, 0);
    if text[0] == '$' && |text| > 1 {
      CharAt(value, index, text, 1);
      assert n == 1 ==> text[1] != '(' by { if text[1] == '(' { assert text[0..2] == "$("; } }
      if n == 3 {
        CharAt(value, index, text, 2);
        assert value[index..index + 3] == "$((";
      } else if |text| > 2 {
        CharAt(value, index, text, 2);
      }
    }
  }

  lemma CollectedBeyond(value: string)
    ensures Collected(value, |value|) == []
  {
  }

  lemma TakeBackticked(value: string, index: nat, end: nat)
    requires index < |value| && value[index] == '`' && BacktickFrom(value, index + 1, false) == Some(end)
    ensures Collected(value, index)
         == [value[index + 1..end]] + Collected(value[index + 1..end], 0) + Collected(value, end + 1)
  {
    hide BacktickFrom, CloseFrom;
    DollarParen(value, index);
  }

  lemma TakeBacktick(value: string, index: nat, items: seq<Item>)
    requires ItemsOk(items) && Quiet(PrintItems(items)) && StartsWith(value, index, "`" + PrintItems(items) + "`")
    ensures Collected(value, index) == [PrintItems(items)] + Collected(value, index + |PrintItems(items)| + 2)
  {
    hide PrintItems, ItemsOk, BacktickFrom, CloseFrom, Collected;
    var text := PrintItems(items);
    StepBacktick(value, index, items, 1, Unquoted);
    TakeBackticked(value, index, index + 1 + |text|);
    assert "`" + text + "`" == "`" + (text + "`");
    StartsWithConcat(value, index, "`", text + "`");
    StartsWithConcat(value, index + 1, text, "`");
    assert StartsWith(text, 0, text);
    PassQuiet(text, 0, text);
    CollectedBeyond(text);
  }

  /** Every substituted command of the text, at any depth, is collected, in reading order. */
  lemma SubstitutionCommandsComplete(pieces: seq<Piece>)
    requires Wellformed(pieces) && Transparent(pieces)
    ensures Collected(Print(pieces), 0) == Commands(pieces)
  {
    CollectWhole(pieces);
  }

  lemma {:induction false} CollectPieces(value: string, index: nat, pieces: seq<Piece>)
    requires Wellformed(pieces) && Transparent(pieces) && StartsWith(value, index, Print(pieces))
    ensures Collected(value, index) == Commands(pieces) + Collected(value, index + |Print(pieces)|)
    decreases pieces, 0
  {
    hide Collected, PrintPiece, PieceOk, PieceCommands, TransparentPiece, StartsWith;
    if pieces != [] {
      StartsWithConcat(value, index, PrintPiece(pieces[0]), Print(pieces[1..]));
      CollectPiece(value, index, pieces[0]);
      CollectPieces(value, index + |PrintPiece(pieces[0])|, pieces[1..]);
    }
  }

  lemma {:induction false} CollectPiece(value: string, index: nat, p: Piece)
    requires PieceOk(p) && TransparentPiece(p) && StartsWith(value, index, PrintPiece(p))
    ensures Collected(value, index) == PieceCommands(p) + Collected(value, index + |PrintPiece(p)|)
    decreases p, 1
  {
    hide Collected, StartsWith, Print, PrintParts, PrintItems, Wellformed, PartsOk, ItemsOk, QuotedArith, Commands,
      PartsCommands, Transparent, TransparentParts;
    var text := PrintPiece(p);
    CharAt(value, index, text, 0);
    match p
    case Plain(c) =>
      PassChar(value, index);
    case Dollar(c) =>
      CharAt(value, index, text, 1);
      PassChar(value, index);
      PassChar(value, index + 1);
    case Escaped(c) =>
      CharAt(value, index, text, 1);
      PassEscape(value, index);
    case Single(inner) =>
      PassQuiet(value, index, text);
    case Double(parts) =>
      CollectEnclosed(value, index, "\"", PrintParts(parts), "\"");
      CollectParts(value, index + 1, parts);
    case Group(body) =>
      CollectEnclosed(value, index, "(", Print(body), ")");
      CollectPieces(value, index + 1, body);
    case Backtick(items) =>
      TakeBacktick(value, index, items);
    case Subst(body) =>
      TakeSubst(value, index, body);
      CollectWhole(body);
    case Arith(body) =>
      assert text == "$((" + Print(body) + "))";
      assert text == "$((" + (Print(body) + "))");
      StartsWithConcat(value, index, "$((", Print(body) + "))");
      PassArith(value, index);
      StartsWithConcat(value, index + 3, Print(body), "))");
      CollectPieces(value, index + 3, body);
      PassText(value, index + 3 + |Print(body)|, "))");
  }

  lemma CollectEnclosed(value: string, index: nat, open: string, text: string, close: string)
    requires StartsWith(value, index, open + text + close) && forall c :: c in open + close ==> Inert(c)
    ensures Collected(value, index) == Collected(value, index + |open|)
    ensures StartsWith(value, index + |open|, text)
    ensures Collected(value, index + |open| + |text|) == Collected(value, index + |open| + |text| + |close|)
  {
    hide Collected, StartsWith, Inert;
    assert open + text + close == open + (text + close);
    StartsWithConcat(value, index, open, text + close);
    StartsWithConcat(value, index + |open|, text, close);
    PassText(value, index, open);
    PassText(value, index + |open| + |text|, close);
  }

  lemma {:induction false} CollectWhole(body: seq<Piece>)
    requires Wellformed(body) && Transparent(body)
    ensures Collected(Print(body), 0) == Commands(body)
    decreases body, 1
  {
    StartsWhole(Print(body));
    CollectedBeyond(Print(body));
    hide Print, Wellformed, Transparent, Commands, Collected, StartsWith;
    CollectPieces(Print(body), 0, body);
  }

  lemma StartsWhole(value: string)
    ensures StartsWith(value, 0, value)
  {
  }

  lemma {:induction false} CollectParts(value: string, index: nat, parts: seq<Part>)
    requires PartsOk(parts) && TransparentParts(parts) && StartsWith(value, index, PrintParts(parts))
    ensures Collected(value, index) == PartsCommands(parts) + Collected(value, index + |PrintParts(parts)|)
    decreases parts, 0
  {
    hide Collected, PrintPart, PartOk, PartCommands, StartsWith;
    if parts != [] {
      StartsWithConcat(value, index, PrintPart(parts[0]), PrintParts(parts[1..]));
      CollectPart(value, index, parts[0]);
      CollectParts(value, index + |PrintPart(parts[0])|, parts[1..]);
    }
  }

  lemma {:induction false} CollectPart(value: string, index: nat, p: Part)
    requires PartOk(p) && StartsWith(value, index, PrintPart(p))
    requires match p
             case BacktickIn(items) => Quiet(PrintItems(items))
             case SubstIn(body) => Transparent(body)
             case _ => true
    ensures Collected(value, index) == PartCommands(p) + Collected(value, index + |PrintPart(p)|)
    decreases p, 1
  {
    hide Collected, StartsWith, Print, PrintItems, Wellformed, ItemsOk, QuotedArith, Commands, Transparent;
    var text := PrintPart(p);
    CharAt(value, index, text, 0);
    match p
    case Char(c) =>
      PassChar(value, index);
    case DollarIn(c) =>
      CharAt(value, index, text, 1);
      PassChar(value, index);
      PassChar(value, index + 1);
    case EscapedIn(c) =>
      CharAt(value, index, text, 1);
      PassEscape(value, index);
    case BacktickIn(items) =>
      TakeBacktick(value, index, items);
    case SubstIn(body) =>
      TakeSubst(value, index, body);
      CollectWhole(body);
    case ArithIn(inner) =>
      assert text == "$((" + (inner + "))");
      StartsWithConcat(value, index, "$((", inner + "))");
      PassArith(value, index);
      PassText(value, index + 3, inner + "))");
  }
}
