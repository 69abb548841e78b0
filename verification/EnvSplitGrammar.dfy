/** A grammar of `env -S` strings ("env invocation" in the GNU Coreutils manual)
    and the words the splitter makes of everything it prints. */
module EnvSplitGrammar {
  import opened Wrappers
  import opened EnvSplit

  datatype Escape = Hash | DollarSign | DoubleMark | SingleMark | Backslash | FormFeed | NewLine | Return | Tab | VerticalTab

  function EscapeLetter(e: Escape): char {
    match e
    case Hash => '#'
    case DollarSign => '$'
    case DoubleMark => '"'
    case SingleMark => '\''
    case Backslash => '\\'
    case FormFeed => 'f'
    case NewLine => 'n'
    case Return => 'r'
    case Tab => 't'
    case VerticalTab => 'v'
  }

  function EscapeMeaning(e: Escape): char {
    match e
    case Hash => '#'
    case DollarSign => '$'
    case DoubleMark => '"'
    case SingleMark => '\''
    case Backslash => '\\'
    case FormFeed => '\U{c}'
    case NewLine => '\n'
    case Return => '\r'
    case Tab => '\t'
    case VerticalTab => '\U{b}'
  }

  /** Text inside double quotes; `\_` is a space there. */
  datatype Item = Plain(c: char) | Dollar(c: char) | Escaped(e: Escape) | EscapedSpace

  /** A part of a word. The last two are spellings the splitter is handed by its caller. */
  datatype Segment =
    | Bare(c: char)
    | BareDollar(c: char)
    | BareEscape(e: Escape)
    | Single(text: string)
    | Double(items: seq<Item>)
    | MarkedSpace
    | MarkedUnderscore

  /** What stands between words. */
  datatype Gap = Space | Tabulator | EscapedGap | MarkedGap

  function PrintItem(i: Item): string {
    match i
    case Plain(c) => [c]
    case Dollar(c) => ['$', c]
    case Escaped(e) => ['\\', EscapeLetter(e)]
    case EscapedSpace => "\\_"
  }

  function ItemMeaning(i: Item): string {
    match i
    case Plain(c) => [c]
    case Dollar(c) => ['$', c]
    case Escaped(e) => [EscapeMeaning(e)]
    case EscapedSpace => " "
  }

  function PrintItems(items: seq<Item>): string {
    if items == [] then "" else PrintItem(items[0]) + PrintItems(items[1..])
  }

  function ItemsMeaning(items: seq<Item>): string {
    if items == [] then "" else ItemMeaning(items[0]) + ItemsMeaning(items[1..])
  }

  function PrintSegment(g: Segment): string {
    match g
    case Bare(c) => [c]
    case BareDollar(c) => ['$', c]
    case BareEscape(e) => ['\\', EscapeLetter(e)]
    case Single(text) => "'" + text + "'"
    case Double(items) => "\"" + PrintItems(items) + "\""
    case MarkedSpace => [QUOTED_SPACE]
    case MarkedUnderscore => [LITERAL_UNDERSCORE]
  }

  function SegmentMeaning(g: Segment): string {
    match g
    case Bare(c) => [c]
    case BareDollar(c) => ['$', c]
    case BareEscape(e) => [EscapeMeaning(e)]
    case Single(text) => text
    case Double(items) => ItemsMeaning(items)
    case MarkedSpace => " "
    case MarkedUnderscore => "\\_"
  }

  function PrintWord(word: seq<Segment>): string {
    if word == [] then "" else PrintSegment(word[0]) + PrintWord(word[1..])
  }

  function WordMeaning(word: seq<Segment>): string {
    if word == [] then "" else SegmentMeaning(word[0]) + WordMeaning(word[1..])
  }

  function PrintGap(g: Gap): string {
    match g
    case Space => " "
    case Tabulator => "\t"
    case EscapedGap => "\\_"
    case MarkedGap => [OUTSIDE_SPACE]
  }

  function PrintGaps(gaps: seq<Gap>): string {
    if gaps == [] then "" else PrintGap(gaps[0]) + PrintGaps(gaps[1..])
  }

  predicate QuotedPlain(c: char) { !Marker(c) && c != '"' && c != '\\' && c != '$' }

  predicate ItemOk(i: Item) {
    match i
    case Plain(c) => QuotedPlain(c)
    case Dollar(c) => QuotedPlain(c) && c != '{'
    case _ => true
  }

  predicate BarePlain(c: char) { QuotedPlain(c) && c != ' ' && c != '\t' && c != '\'' }

  predicate SegmentOk(g: Segment) {
    match g
    case Bare(c) => BarePlain(c)
    case BareDollar(c) => BarePlain(c) && c != '{'
    case Single(text) => forall c :: c in text ==> c != '\'' && !Marker(c)
    case Double(items) => forall i :: 0 <= i < |items| ==> ItemOk(items[i])
    case _ => true
  }

  predicate WordOk(word: seq<Segment>) { word != [] && forall i :: 0 <= i < |word| ==> SegmentOk(word[i]) }

  // ---- Reading a part of a word -------------------------------------------

  lemma Characters(value: string, index: nat, head: string, rest: string)
    requires Remains(value, index, head + rest)
    ensures |head| > 0 ==> index < |value| && value[index] == head[0]
    ensures |head| > 1 ==> index + 1 < |value| && value[index + 1] == head[1]
    ensures Remains(value, index + |head|, rest) && index + |head| <= |value|
  {
    Suffix(value, index, head, rest);
  }

  lemma EscapeReads(e: Escape)
    ensures EscapedValue(EscapeLetter(e)) == Some(EscapeMeaning(e)) && EscapeLetter(e) != 'c' && EscapeLetter(e) != '_'
    ensures !Marker('\\')
  {
  }

  function Grown(s: SplitState, text: string, n: nat): SplitState { Advance(Append(s, text), n) }

  lemma ItemStep(value: string, s: SplitState, i: Item, rest: string)
    requires ItemOk(i) && s.quote == DoubleQuoted && Remains(value, s.index, PrintItem(i) + rest)
    ensures SplitFrom(value, s) == SplitFrom(value, Grown(s, ItemMeaning(i), |PrintItem(i)|))
    ensures Remains(value, s.index + |PrintItem(i)|, rest)
  {
    hide SplitFrom, EscapedValue, Remains;
    Characters(value, s.index, PrintItem(i), rest);
    match i
    case Plain(_) => OneStep(value, s);
    case Dollar(c) => DollarStep(value, s, c);
    case Escaped(e) => EscapeReads(e); OneStep(value, s);
    case EscapedSpace => OneStep(value, s);
  }

  /** A dollar sign and the character behind it are two steps. */
  lemma DollarStep(value: string, s: SplitState, c: char)
    requires s.index + 1 < |value| && value[s.index] == '$' && value[s.index + 1] == c && c != '{'
    requires (s.quote == DoubleQuoted && QuotedPlain(c)) || (s.quote == Unquoted && BarePlain(c))
    ensures SplitFrom(value, s) == SplitFrom(value, Grown(s, ['$', c], 2))
  {
    hide SplitFrom;
    var t := Grown(s, "$", 1);
    PlainStep(value, s);
    PlainStep(value, t);
    assert s.current + "$" + [c] == s.current + ['$', c];
  }

  lemma PlainStep(value: string, s: SplitState)
    requires s.index < |value| && !Expansion(value, s.index)
    requires var c := value[s.index];
      c == '$' || (s.quote == DoubleQuoted && QuotedPlain(c)) || (s.quote == Unquoted && BarePlain(c))
    requires s.quote != SingleQuoted
    ensures SplitFrom(value, s) == SplitFrom(value, Grown(s, [value[s.index]], 1))
  {
    hide SplitFrom;
    PlainReads(value, s);
    hide Step;
    OneStep(value, s);
  }

  lemma PlainReads(value: string, s: SplitState)
    requires s.index < |value| && !Expansion(value, s.index) && s.quote != SingleQuoted
    requires var c := value[s.index];
      c == '$' || (s.quote == DoubleQuoted && QuotedPlain(c)) || (s.quote == Unquoted && BarePlain(c))
    ensures Step(value, s) == Next(Grown(s, [value[s.index]], 1))
  {
    hide SplitFrom, EscapeEffect, Expansion, MarkerEffect;
    assert !Marker('$');
    if s.quote == DoubleQuoted {
      assert QuotedEffect(value, s) == Next(Grown(s, [value[s.index]], 1));
    } else {
      assert UnquotedEffect(value, s) == Next(Grown(s, [value[s.index]], 1));
    }
  }

  lemma {:induction false} ItemsStep(value: string, s: SplitState, items: seq<Item>, rest: string)
    requires s.quote == DoubleQuoted && s.started && Remains(value, s.index, PrintItems(items) + rest)
    requires forall i :: 0 <= i < |items| ==> ItemOk(items[i])
    ensures SplitFrom(value, s) == SplitFrom(value, Grown(s, ItemsMeaning(items), |PrintItems(items)|))
    ensures Remains(value, s.index + |PrintItems(items)|, rest)
    decreases |items|
  {
    hide SplitFrom, ItemOk, PrintItem, ItemMeaning, Remains;
    if items == [] {
      assert PrintItems(items) + rest == rest && s.current + "" == s.current;
    } else {
      var more := PrintItems(items[1..]) + rest;
      assert PrintItems(items) + rest == PrintItem(items[0]) + more;
      ItemStep(value, s, items[0], more);
      ItemsStep(value, Grown(s, ItemMeaning(items[0]), |PrintItem(items[0])|), items[1..], rest);
      assert s.current + ItemMeaning(items[0]) + ItemsMeaning(items[1..]) == s.current + (ItemMeaning(items[0]) + ItemsMeaning(items[1..]));
    }
  }

  lemma {:induction false} SingleText(value: string, s: SplitState, text: string, rest: string)
    requires s.quote == SingleQuoted && s.started && Remains(value, s.index, text + rest)
    requires forall c :: c in text ==> c != '\'' && !Marker(c)
    ensures SplitFrom(value, s) == SplitFrom(value, Grown(s, text, |text|))
    ensures Remains(value, s.index + |text|, rest)
    decreases |text|
  {
    hide SplitFrom, Remains;
    if text == "" {
      assert text + rest == rest && s.current + "" == s.current;
    } else {
      assert text[0] in text && forall c :: c in text[1..] ==> c in text;
      assert text + rest == [text[0]] + (text[1..] + rest);
      Characters(value, s.index, [text[0]], text[1..] + rest);
      OneStep(value, s);
      SingleText(value, Grown(s, [text[0]], 1), text[1..], rest);
      assert s.current + [text[0]] + text[1..] == s.current + text;
    }
  }

  /** Opening and closing a quote changes nothing but the quoting. */
  lemma QuoteStep(value: string, s: SplitState, c: char, rest: string)
    requires Remains(value, s.index, [c] + rest) && (c == '"' || c == '\'')
    requires s.quote == Unquoted || (s.quote == DoubleQuoted && c == '"') || (s.quote == SingleQuoted && c == '\'')
    ensures var next := if s.quote != Unquoted then Unquoted else if c == '"' then DoubleQuoted else SingleQuoted;
      SplitFrom(value, s) == SplitFrom(value, SplitState(s.tokens, s.current, next, true, s.index + 1))
    ensures Remains(value, s.index + 1, rest)
  {
    hide SplitFrom, Remains;
    Characters(value, s.index, [c], rest);
    assert !Marker(c);
    OneStep(value, s);
  }

  lemma SegmentStep(value: string, s: SplitState, g: Segment, rest: string)
    requires SegmentOk(g) && s.quote == Unquoted && Remains(value, s.index, PrintSegment(g) + rest)
    ensures SplitFrom(value, s) == SplitFrom(value, Grown(s, SegmentMeaning(g), |PrintSegment(g)|))
    ensures Remains(value, s.index + |PrintSegment(g)|, rest)
  {
    hide SplitFrom, EscapedValue, Remains, PrintItems, ItemsMeaning;
    match g
    case Single(text) => SingleStep(value, s, text, rest);
    case Double(items) => DoubleStep(value, s, items, rest);
    case BareDollar(c) => Characters(value, s.index, PrintSegment(g), rest); DollarStep(value, s, c);
    case BareEscape(e) => Characters(value, s.index, PrintSegment(g), rest); EscapeReads(e); OneStep(value, s);
    case Bare(_) => Characters(value, s.index, PrintSegment(g), rest); OneStep(value, s);
    case MarkedSpace => Characters(value, s.index, PrintSegment(g), rest); OneStep(value, s);
    case MarkedUnderscore => Characters(value, s.index, PrintSegment(g), rest); OneStep(value, s);
  }

  lemma SingleStep(value: string, s: SplitState, text: string, rest: string)
    requires forall c :: c in text ==> c != '\'' && !Marker(c)
    requires s.quote == Unquoted && Remains(value, s.index, "'" + text + "'" + rest)
    ensures SplitFrom(value, s) == SplitFrom(value, Grown(s, text, |text| + 2))
    ensures Remains(value, s.index + |text| + 2, rest)
  {
    hide SplitFrom, Remains;
    assert "'" + text + "'" + rest == "'" + (text + ("'" + rest));
    QuoteStep(value, s, '\'', text + ("'" + rest));
    var inside := SplitState(s.tokens, s.current, SingleQuoted, true, s.index + 1);
    SingleText(value, inside, text, "'" + rest);
    QuoteStep(value, Grown(inside, text, |text|), '\'', rest);
  }

  lemma DoubleStep(value: string, s: SplitState, items: seq<Item>, rest: string)
    requires forall i :: 0 <= i < |items| ==> ItemOk(items[i])
    requires s.quote == Unquoted && Remains(value, s.index, "\"" + PrintItems(items) + "\"" + rest)
    ensures SplitFrom(value, s) == SplitFrom(value, Grown(s, ItemsMeaning(items), |PrintItems(items)| + 2))
    ensures Remains(value, s.index + |PrintItems(items)| + 2, rest)
  {
    hide SplitFrom, Remains, PrintItems, ItemsMeaning, ItemOk;
    var text := PrintItems(items);
    assert "\"" + text + "\"" + rest == "\"" + (text + ("\"" + rest));
    QuoteStep(value, s, '"', text + ("\"" + rest));
    var inside := SplitState(s.tokens, s.current, DoubleQuoted, true, s.index + 1);
    ItemsStep(value, inside, items, "\"" + rest);
    QuoteStep(value, Grown(inside, ItemsMeaning(items), |text|), '"', rest);
  }

  // ---- Words and gaps -----------------------------------------------------

  lemma {:induction false} WordStep(value: string, s: SplitState, word: seq<Segment>, rest: string)
    requires word != [] || s.started
    requires s.quote == Unquoted && Remains(value, s.index, PrintWord(word) + rest)
    requires forall i :: 0 <= i < |word| ==> SegmentOk(word[i])
    ensures SplitFrom(value, s) == SplitFrom(value, Grown(s, WordMeaning(word), |PrintWord(word)|))
    ensures Remains(value, s.index + |PrintWord(word)|, rest)
    decreases |word|
  {
    hide SplitFrom, SegmentOk, PrintSegment, SegmentMeaning, Remains;
    if word == [] {
      assert PrintWord(word) + rest == rest && s.current + "" == s.current;
    } else {
      var more := PrintWord(word[1..]) + rest;
      assert PrintWord(word) + rest == PrintSegment(word[0]) + more;
      SegmentStep(value, s, word[0], more);
      WordStep(value, Grown(s, SegmentMeaning(word[0]), |PrintSegment(word[0])|), word[1..], rest);
      assert s.current + SegmentMeaning(word[0]) + WordMeaning(word[1..]) == s.current + (SegmentMeaning(word[0]) + WordMeaning(word[1..]));
    }
  }

  lemma GapStep(value: string, s: SplitState, g: Gap, rest: string)
    requires s.quote == Unquoted && Remains(value, s.index, PrintGap(g) + rest)
    ensures SplitFrom(value, s) == SplitFrom(value, Advance(Finish(s), |PrintGap(g)|))
    ensures Remains(value, s.index + |PrintGap(g)|, rest)
  {
    hide SplitFrom, Remains, EscapedValue;
    Characters(value, s.index, PrintGap(g), rest);
    OneStep(value, s);
  }

  lemma {:induction false} GapsStep(value: string, s: SplitState, gaps: seq<Gap>, rest: string)
    requires s.quote == Unquoted && Remains(value, s.index, PrintGaps(gaps) + rest)
    ensures SplitFrom(value, s) == SplitFrom(value, Advance(if gaps == [] then s else Finish(s), |PrintGaps(gaps)|))
    ensures Remains(value, s.index + |PrintGaps(gaps)|, rest)
    decreases |gaps|
  {
    hide SplitFrom, PrintGap, Remains;
    if gaps == [] {
      assert PrintGaps(gaps) + rest == rest;
    } else {
      var more := PrintGaps(gaps[1..]) + rest;
      assert PrintGaps(gaps) + rest == PrintGap(gaps[0]) + more;
      GapStep(value, s, gaps[0], more);
      GapsStep(value, Advance(Finish(s), |PrintGap(gaps[0])|), gaps[1..], rest);
    }
  }

  // ---- Whole strings ------------------------------------------------------

  /** Words, each with the gaps behind it. */
  datatype Piece = Piece(word: seq<Segment>, gaps: seq<Gap>)

  function PrintPieces(pieces: seq<Piece>): string {
    if pieces == [] then "" else PrintWord(pieces[0].word) + PrintGaps(pieces[0].gaps) + PrintPieces(pieces[1..])
  }

  function Meanings(pieces: seq<Piece>): seq<string> {
    if pieces == [] then [] else [WordMeaning(pieces[0].word)] + Meanings(pieces[1..])
  }

  /** Only the last word may lack a gap. */
  predicate PiecesOk(pieces: seq<Piece>) {
    pieces != [] ==> WordOk(pieces[0].word) && (|pieces| > 1 ==> pieces[0].gaps != []) && PiecesOk(pieces[1..])
  }

  /** `\c` ends the string whatever follows. */
  predicate End(text: string) { text == "" || "\\c" <= text }

  lemma EndStep(value: string, s: SplitState, end: string)
    requires End(end) && s.quote == Unquoted && Remains(value, s.index, end)
    ensures SplitFrom(value, s) == Some(Finish(s).tokens)
  {
    if end != "" {
      assert end == "\\c" + end[2..];
      Characters(value, s.index, "\\c", end[2..]);
      assert !Marker('\\');
    }
  }

  lemma {:induction false} PiecesStep(value: string, s: SplitState, pieces: seq<Piece>, end: string)
    requires PiecesOk(pieces) && End(end) && Remains(value, s.index, PrintPieces(pieces) + end)
    requires s.quote == Unquoted && !s.started && s.current == ""
    ensures SplitFrom(value, s) == Some(s.tokens + Meanings(pieces))
    decreases |pieces|
  {
    hide SplitFrom, Remains, PrintWord, PrintGaps, WordMeaning, End;
    if pieces == [] {
      assert PrintPieces(pieces) + end == end;
      EndStep(value, s, end);
      assert s.tokens + [] == s.tokens;
    } else {
      hide SegmentOk;
      var p, more := pieces[0], PrintPieces(pieces[1..]) + end;
      FirstPiece(pieces, end);
      WordStep(value, s, p.word, PrintGaps(p.gaps) + more);
      var open := Grown(s, WordMeaning(p.word), |PrintWord(p.word)|);
      assert open.current == WordMeaning(p.word);
      GapsStep(value, open, p.gaps, more);
      if p.gaps == [] {
        LastPiece(pieces, end);
        NoGaps(value, open, end);
        hide *;
      } else {
        PiecesStep(value, Advance(Finish(open), |PrintGaps(p.gaps)|), pieces[1..], end);
        FirstMeaning(s.tokens, pieces);
      }
    }
  }

  lemma FirstMeaning(tokens: seq<string>, pieces: seq<Piece>)
    requires pieces != []
    ensures tokens + [WordMeaning(pieces[0].word)] + Meanings(pieces[1..]) == tokens + Meanings(pieces)
  {
    hide WordMeaning;
  }

  lemma FirstPiece(pieces: seq<Piece>, end: string)
    requires pieces != []
    ensures PrintPieces(pieces) + end
         == PrintWord(pieces[0].word) + (PrintGaps(pieces[0].gaps) + (PrintPieces(pieces[1..]) + end))
  {
    hide PrintWord, PrintGaps;
  }

  lemma LastPiece(pieces: seq<Piece>, end: string)
    requires |pieces| == 1
    ensures PrintPieces(pieces[1..]) + end == end && Meanings(pieces) == [WordMeaning(pieces[0].word)]
  {
    hide WordMeaning, PrintWord, PrintGaps;
    assert pieces[1..] == [];
  }

  lemma NoGaps(value: string, open: SplitState, end: string)
    requires Remains(value, open.index + |PrintGaps([])|, end) && End(end) && open.quote == Unquoted
    ensures SplitFrom(value, open) == Some(Finish(open).tokens)
  {
    EndStep(value, open, end);
  }

  /** Whatever the words are made of, and whatever separates them, the string
      splits into their meanings. */
  lemma SplitMeans(lead: seq<Gap>, pieces: seq<Piece>, end: string)
    requires PiecesOk(pieces) && End(end)
    ensures Split(PrintGaps(lead) + (PrintPieces(pieces) + end)) == Some(Meanings(pieces))
  {
    hide SplitFrom, PrintGaps, PrintPieces, Meanings, End;
    var value := PrintGaps(lead) + (PrintPieces(pieces) + end);
    var s := SplitState([], "", Unquoted, false, 0);
    assert Remains(value, 0, value) by { assert value[0..] == value; }
    hide Remains;
    GapsStep(value, s, lead, PrintPieces(pieces) + end);
    PiecesStep(value, Advance(s, |PrintGaps(lead)|), pieces, end);
    assert [] + Meanings(pieces) == Meanings(pieces);
  }

  // ---- What is rejected ---------------------------------------------------

  /** Where the next character is neither inside quotes nor the start of something. */
  lemma OpenWord(lead: seq<Gap>, word: seq<Segment>, rest: string) returns (s: SplitState)
    requires forall i :: 0 <= i < |word| ==> SegmentOk(word[i])
    ensures var value := PrintGaps(lead) + (PrintWord(word) + rest);
      Split(value) == SplitFrom(value, s) && Remains(value, s.index, rest) && s.quote == Unquoted
  {
    hide SplitFrom, PrintGaps, PrintWord, WordMeaning, SegmentOk;
    var value := PrintGaps(lead) + (PrintWord(word) + rest);
    s := SplitState([], "", Unquoted, false, 0);
    assert Remains(value, 0, value) by { assert value[0..] == value; }
    hide Remains;
    GapsStep(value, s, lead, PrintWord(word) + rest);
    s := Advance(s, |PrintGaps(lead)|);
    if word == [] {
      NoWord(rest);
    } else {
      WordStep(value, s, word, rest);
      s := Grown(s, WordMeaning(word), |PrintWord(word)|);
    }
  }

  lemma NoWord(rest: string)
    ensures PrintWord([]) + rest == rest
  {
  }

  /** A backslash at the end, one before a letter that is no escape, an expansion,
      and a quote that is never closed make the whole string invalid. */
  lemma Rejected(lead: seq<Gap>, word: seq<Segment>, rest: string)
    requires forall i :: 0 <= i < |word| ==> SegmentOk(word[i])
    requires rest == "\\" || "${" <= rest || BadEscape(rest) || Unclosed(rest)
    ensures Split(PrintGaps(lead) + (PrintWord(word) + rest)) == None
  {
    hide Split, SplitFrom, PrintGaps, PrintWord, SegmentOk, Remains, Unclosed;
    var value := PrintGaps(lead) + (PrintWord(word) + rest);
    var s := OpenWord(lead, word, rest);
    if Unclosed(rest) {
      UnclosedRejected(value, s, rest);
    } else {
      RejectedHere(value, s, rest);
    }
  }

  /** A backslash before a character that has no meaning behind one. */
  predicate BadEscape(rest: string) {
    |rest| > 1 && rest[0] == '\\' && rest[1] != 'c' && rest[1] != '_' && !EscapeKnown(rest[1])
  }

  predicate EscapeKnown(c: char) { c in "#$\"'\\fnrtv" }

  predicate Unclosed(rest: string) {
    rest != "" && rest[0] == '\'' && forall c :: c in rest[1..] ==> c != '\'' && !Marker(c)
  }

  lemma RejectedHere(value: string, s: SplitState, rest: string)
    requires s.quote == Unquoted && Remains(value, s.index, rest)
    requires rest == "\\" || "${" <= rest || BadEscape(rest)
    ensures SplitFrom(value, s) == None
  {
    assert forall k :: 0 <= k < |rest| ==> s.index + k < |value| && value[s.index + k] == value[s.index..][k] == rest[k];
    assert !Marker('\\') && !Marker('$');
    assert rest[0] == '\\' || (|rest| > 1 && rest[0] == '$' && rest[1] == '{');
    assert Step(value, s) == Reject;
    hide Step;
  }

  lemma UnclosedRejected(value: string, s: SplitState, rest: string)
    requires s.quote == Unquoted && Remains(value, s.index, rest) && Unclosed(rest)
    ensures SplitFrom(value, s) == None
  {
    assert rest == "'" + rest[1..];
    QuoteStep(value, s, '\'', rest[1..]);
    var inside := SplitState(s.tokens, s.current, SingleQuoted, true, s.index + 1);
    assert rest[1..] == rest[1..] + "";
    SingleText(value, inside, rest[1..], "");
  }
}
