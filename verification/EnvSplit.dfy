/** scripts/check_container_image_pins.py: splitting the argument of GNU
    `env -S` into words ("env invocation" in the GNU Coreutils manual). */
module EnvSplit {
  import opened Wrappers

  datatype Quote = Unquoted | SingleQuoted | DoubleQuoted

  datatype SplitState = SplitState(tokens: seq<string>, current: string, quote: Quote, started: bool, index: nat)

  /** One character's effect: go on, stop at `\c`, or reject the string. */
  datatype Effect = Next(state: SplitState) | Stop(tokens: seq<string>) | Reject

  /** Private-use characters standing for pre-processed `\_` escapes. */
  const OUTSIDE_SPACE := '\U{e000}'
  const QUOTED_SPACE := '\U{e001}'
  const LITERAL_UNDERSCORE := '\U{e002}'

  predicate Marker(c: char) { c == OUTSIDE_SPACE || c == QUOTED_SPACE || c == LITERAL_UNDERSCORE }

  function EscapedValue(c: char): Option<char> {
    if c in "#$\"'\\" then Some(c)
    else if c == 'f' then Some(12 as char)
    else if c == 'n' then Some('\n')
    else if c == 'r' then Some('\r')
    else if c == 't' then Some('\t')
    else if c == 'v' then Some(11 as char)
    else None
  }

  function Finish(s: SplitState): SplitState {
    if s.started then s.(tokens := s.tokens + [s.current], current := "", started := false) else s
  }

  function Append(s: SplitState, text: string): SplitState {
    s.(current := s.current + text, started := true)
  }

  function Advance(s: SplitState, n: nat): SplitState {
    s.(index := s.index + n)
  }

  function MarkerEffect(s: SplitState, c: char): SplitState {
    Advance(if c == OUTSIDE_SPACE then Finish(s)
            else Append(s, if c == QUOTED_SPACE then " " else "\\_"), 1)
  }

  /** The escape sequence whose backslash is at the index. */
  function EscapeEffect(value: string, s: SplitState): Effect {
    if s.index + 1 >= |value| then Reject else
      var c := value[s.index + 1];
      if c == 'c' then Stop(Finish(s).tokens)
      else if c == '_' then Next(Advance(if s.quote == DoubleQuoted then Append(s, " ") else Finish(s), 2))
      else if EscapedValue(c).None? then Reject
      else Next(Advance(Append(s, [EscapedValue(c).value]), 2))
  }

  predicate Expansion(value: string, index: nat) {
    index + 1 < |value| && value[index] == '$' && value[index + 1] == '{'
  }

  function QuotedEffect(value: string, s: SplitState): Effect
    requires s.index < |value| && s.quote != Unquoted
  {
    var c := value[s.index];
    if s.quote == SingleQuoted then
      Next(Advance(if c == '\'' then s.(quote := Unquoted, started := true) else Append(s, [c]), 1))
    else if c == '"' then Next(Advance(s.(quote := Unquoted, started := true), 1))
    else if c == '\\' then EscapeEffect(value, s)
    else if Expansion(value, s.index) then Reject
    else Next(Advance(Append(s, [c]), 1))
  }

  function UnquotedEffect(value: string, s: SplitState): Effect
    requires s.index < |value| && s.quote == Unquoted
  {
    var c := value[s.index];
    if c == ' ' || c == '\t' then Next(Advance(Finish(s), 1))
    else if c == '\'' then Next(Advance(s.(quote := SingleQuoted, started := true), 1))
    else if c == '"' then Next(Advance(s.(quote := DoubleQuoted, started := true), 1))
    else if Expansion(value, s.index) then Reject
    else if c == '\\' then EscapeEffect(value, s)
    else Next(Advance(Append(s, [c]), 1))
  }

  function Step(value: string, s: SplitState): Effect
    requires s.index < |value|
  {
    if Marker(value[s.index]) then Next(MarkerEffect(s, value[s.index]))
    else if s.quote != Unquoted then QuotedEffect(value, s)
    else UnquotedEffect(value, s)
  }

  /** The words from the given state on; None when the string is rejected. */
  function SplitFrom(value: string, s: SplitState): Option<seq<string>>
    decreases |value| - s.index
  {
    if s.index >= |value| then
      if s.quote != Unquoted then None else Some(Finish(s).tokens)
    else
      match Step(value, s)
      case Next(next) => SplitFrom(value, next)
      case Stop(tokens) => Some(tokens)
      case Reject => None
  }

  function Split(value: string): Option<seq<string>> {
    SplitFrom(value, SplitState([], "", Unquoted, false, 0))
  }

  // ---- The splitter as written --------------------------------------------

  datatype Signal = GoOn | Terminal | Error

  class EnvSplitState {
    var tokens: seq<string>
    var current: string
    var quote: Quote
    var started: bool
    var index: nat

    constructor ()
      ensures Snapshot() == SplitState([], "", Unquoted, false, 0)
    {
      tokens, current, quote, started, index := [], "", Unquoted, false, 0;
    }

    ghost function Snapshot(): SplitState
      reads this
    {
      SplitState(tokens, current, quote, started, index)
    }

    method FinishToken()
      modifies this`tokens, this`current, this`started
      ensures Snapshot() == Finish(old(Snapshot()))
    {
      if !started {
        return;
      }
      tokens := tokens + [current];
      current := "";
      started := false;
    }

    method AppendText(text: string)
      modifies this`current, this`started
      ensures Snapshot() == Append(old(Snapshot()), text)
    {
      current := current + text;
      started := true;
    }

    method ConsumeMarker(c: char) returns (consumed: bool)
      modifies this
      ensures consumed == Marker(c)
      ensures Snapshot() == if consumed then MarkerEffect(old(Snapshot()), c) else old(Snapshot())
    {
      if c == OUTSIDE_SPACE {
        FinishToken();
      } else if c == QUOTED_SPACE {
        AppendText(" ");
      } else if c == LITERAL_UNDERSCORE {
        AppendText("\\_");
      } else {
        return false;
      }
      index := index + 1;
      consumed := true;
    }

    /** How an effect shows in the object: the new state, or only the words so far. */
    ghost predicate Shows(effect: Effect, signal: Signal)
      reads this
    {
      match effect
      case Next(next) => signal == GoOn && Snapshot() == next
      case Stop(words) => signal == Terminal && tokens == words
      case Reject => signal == Error
    }

    method ConsumeEscape(value: string) returns (signal: Signal)
      modifies this
      ensures Shows(EscapeEffect(value, old(Snapshot())), signal)
    {
      index := index + 1;
      if index >= |value| {
        return Error;
      }
      var escaped := value[index];
      if escaped == 'c' {
        FinishToken();
        return Terminal;
      }
      if escaped == '_' {
        if quote == DoubleQuoted {
          AppendText(" ");
        } else {
          FinishToken();
        }
        index := index + 1;
        return GoOn;
      }
      var replacement := EscapedValue(escaped);
      if replacement.None? {
        return Error;
      }
      AppendText([replacement.value]);
      index := index + 1;
      signal := GoOn;
    }

    method ConsumeQuoted(value: string) returns (signal: Signal)
      requires index < |value| && quote != Unquoted
      modifies this
      ensures Shows(QuotedEffect(value, old(Snapshot())), signal)
    {
      var c := value[index];
      if quote == SingleQuoted {
        if c == '\'' {
          quote := Unquoted;
          started := true;
        } else {
          AppendText([c]);
        }
        index := index + 1;
        return GoOn;
      }
      if c == '"' {
        quote := Unquoted;
        started := true;
        index := index + 1;
        return GoOn;
      }
      if c == '\\' {
        signal := ConsumeEscape(value);
        return;
      }
      if Expansion(value, index) {
        return Error;
      }
      AppendText([c]);
      index := index + 1;
      signal := GoOn;
    }

    method ConsumeUnquoted(value: string) returns (signal: Signal)
      requires index < |value| && quote == Unquoted
      modifies this
      ensures Shows(UnquotedEffect(value, old(Snapshot())), signal)
    {
      var c := value[index];
      if c == ' ' || c == '\t' {
        FinishToken();
      } else if c == '\'' || c == '"' {
        quote := if c == '"' then DoubleQuoted else SingleQuoted;
        started := true;
      } else if Expansion(value, index) {
        return Error;
      } else if c == '\\' {
        signal := ConsumeEscape(value);
        return;
      } else {
        AppendText([c]);
      }
      index := index + 1;
      signal := GoOn;
    }

    method ConsumeStep(value: string) returns (signal: Signal)
      requires index < |value|
      modifies this
      ensures Shows(Step(value, old(Snapshot())), signal)
    {
      var consumed := ConsumeMarker(value[index]);
      if consumed {
        return GoOn;
      }
      if quote != Unquoted {
        signal := ConsumeQuoted(value);
      } else {
        signal := ConsumeUnquoted(value);
      }
    }
  }

  method GnuEnvSplitString(value: string) returns (words: Option<seq<string>>)
    ensures words == Split(value)
  {
    var state := new EnvSplitState();
    while state.index < |value|
      invariant Split(value) == SplitFrom(value, state.Snapshot())
      decreases |value| - state.index
    {
      var signal := state.ConsumeStep(value);
      if signal == Error {
        return None;
      }
      if signal == Terminal {
        return Some(state.tokens);
      }
    }
    if state.quote != Unquoted {
      return None;
    }
    state.FinishToken();
    words := Some(state.tokens);
  }

  // ---- The round trip -----------------------------------------------------

  function QuoteChar(c: char): string {
    if c in "#$\"'\\" then ['\\', c] else [c]
  }

  function QuoteText(token: string): string {
    if token == "" then "" else QuoteChar(token[0]) + QuoteText(token[1..])
  }

  function QuoteToken(token: string): string {
    "\"" + QuoteText(token) + "\""
  }

  /** Every token in double quotes, separated by single spaces. */
  function QuoteAll(tokens: seq<string>): string {
    if tokens == [] then "" else
      QuoteToken(tokens[0]) + if |tokens| == 1 then "" else " " + QuoteAll(tokens[1..])
  }

  predicate NoMarkers(token: string) {
    forall c :: c in token ==> !Marker(c)
  }

  /** The text from the index on. */
  predicate Remains(value: string, index: nat, text: string) {
    index <= |value| && value[index..] == text
  }

  lemma RemainsBehind(value: string, index: nat, head: string, rest: string)
    requires Remains(value, index, head + rest)
    ensures Remains(value, index + |head|, rest)
  {
    assert value[index + |head|..] == value[index..][|head|..];
  }

  lemma Suffix(value: string, index: nat, head: string, rest: string)
    requires index <= |value| && value[index..] == head + rest
    ensures index + |head| <= |value| && value[index + |head|..] == rest
    ensures forall k :: 0 <= k < |head| ==> value[index + k] == head[k]
  {
    assert value[index + |head|..] == value[index..][|head|..];
    assert forall k :: 0 <= k < |head| ==> value[index + k] == value[index..][k];
  }

  lemma OneStep(value: string, s: SplitState)
    requires s.index < |value| && Step(value, s).Next?
    ensures SplitFrom(value, s) == SplitFrom(value, Step(value, s).state)
  {
    hide Step;
  }

  lemma OneQuotedChar(value: string, s: SplitState, c: char, rest: string)
    requires !Marker(c) && s.quote == DoubleQuoted && s.started
    requires s.index <= |value| && value[s.index..] == QuoteChar(c) + rest
    ensures SplitFrom(value, s) == SplitFrom(value, Advance(Append(s, [c]), |QuoteChar(c)|))
  {
    hide SplitFrom;
    Suffix(value, s.index, QuoteChar(c), rest);
    OneStep(value, s);
  }

  lemma {:induction false} SplitQuotedText(value: string, s: SplitState, token: string, after: string)
    requires NoMarkers(token) && s.quote == DoubleQuoted && s.started
    requires s.index <= |value| && value[s.index..] == QuoteText(token) + after
    ensures SplitFrom(value, s) == SplitFrom(value, Advance(Append(s, token), |QuoteText(token)|))
    decreases |token|
  {
    hide SplitFrom, QuoteChar;
    if token == "" {
      assert Advance(Append(s, token), 0) == s;
    } else {
      var rest := QuoteText(token[1..]) + after;
      var head := QuoteChar(token[0]);
      assert QuoteText(token) + after == head + rest;
      Suffix(value, s.index, head, rest);
      assert token[0] in token;
      OneQuotedChar(value, s, token[0], rest);
      var s' := Advance(Append(s, [token[0]]), |head|);
      SplitQuotedText(value, s', token[1..], after);
      assert s.current + [token[0]] + token[1..] == s.current + token;
    }
  }

  lemma SplitQuotedToken(value: string, s: SplitState, token: string, after: string)
    requires NoMarkers(token) && s.quote == Unquoted && !s.started && s.current == ""
    requires s.index <= |value| && value[s.index..] == QuoteToken(token) + after
    ensures SplitFrom(value, s)
         == SplitFrom(value, SplitState(s.tokens, token, Unquoted, true, s.index + |QuoteToken(token)|))
  {
    hide SplitFrom, QuoteText, NoMarkers;
    assert QuoteToken(token) + after == "\"" + (QuoteText(token) + ("\"" + after));
    Suffix(value, s.index, "\"", QuoteText(token) + ("\"" + after));
    OneStep(value, s);
    var begun := Advance(s.(quote := DoubleQuoted, started := true), 1);
    SplitQuotedText(value, begun, token, "\"" + after);
    Suffix(value, begun.index, QuoteText(token), "\"" + after);
    var done := Advance(Append(begun, token), |QuoteText(token)|);
    Suffix(value, done.index, "\"", after);
    OneStep(value, done);
    assert "" + token == token;
  }

  lemma {:induction false} SplitQuotedTokens(value: string, s: SplitState, tokens: seq<string>)
    requires AllNoMarkers(tokens)
    requires s.quote == Unquoted && !s.started && s.current == ""
    requires Remains(value, s.index, QuoteAll(tokens))
    ensures SplitFrom(value, s) == Some(s.tokens + tokens)
    decreases |tokens|
  {
    hide QuoteToken, NoMarkers, Step;
    if tokens == [] {
      assert s.tokens + tokens == s.tokens;
    } else {
      hide SplitFrom;
      if |tokens| == 1 {
        assert tokens == [tokens[0]];
        SplitOnly(value, s, tokens[0]);
      } else {
        hide QuoteAll;
        SplitNext(value, s, tokens);
        assert forall t :: t in tokens[1..] ==> t in tokens;
        SplitQuotedTokens(value, Between(s, tokens[0]), tokens[1..]);
        assert s.tokens + [tokens[0]] + tokens[1..] == s.tokens + tokens;
      }
    }
  }

  function Closed(s: SplitState, token: string): SplitState {
    SplitState(s.tokens, token, Unquoted, true, s.index + |QuoteToken(token)|)
  }

  function Between(s: SplitState, token: string): SplitState {
    SplitState(s.tokens + [token], "", Unquoted, false, s.index + |QuoteToken(token)| + 1)
  }

  lemma SplitFirst(value: string, s: SplitState, tokens: seq<string>)
    requires AllNoMarkers(tokens) && tokens != []
    requires s.quote == Unquoted && !s.started && s.current == "" && Remains(value, s.index, QuoteAll(tokens))
    ensures SplitFrom(value, s) == SplitFrom(value, Closed(s, tokens[0]))
    ensures Remains(value, Closed(s, tokens[0]).index, Behind(tokens))
  {
    BehindFirst(tokens);
    RemainsBehind(value, s.index, QuoteToken(tokens[0]), Behind(tokens));
    SplitRemaining(value, s, tokens[0], Behind(tokens));
  }

  lemma SplitRemaining(value: string, s: SplitState, token: string, after: string)
    requires NoMarkers(token) && s.quote == Unquoted && !s.started && s.current == ""
    requires Remains(value, s.index, QuoteToken(token) + after)
    ensures SplitFrom(value, s) == SplitFrom(value, Closed(s, token))
  {
    hide SplitFrom, QuoteToken, NoMarkers;
    SplitQuotedToken(value, s, token, after);
  }

  lemma SplitOnly(value: string, s: SplitState, token: string)
    requires AllNoMarkers([token])
    requires s.quote == Unquoted && !s.started && s.current == "" && Remains(value, s.index, QuoteAll([token]))
    ensures SplitFrom(value, s) == Some(s.tokens + [token])
  {
    SplitFirst(value, s, [token]);
    hide SplitFrom, QuoteAll, QuoteToken;
    AfterToken(value, Closed(s, token), "");
  }

  lemma SplitNext(value: string, s: SplitState, tokens: seq<string>)
    requires AllNoMarkers(tokens) && |tokens| > 1
    requires s.quote == Unquoted && !s.started && s.current == "" && Remains(value, s.index, QuoteAll(tokens))
    ensures SplitFrom(value, s) == SplitFrom(value, Between(s, tokens[0]))
    ensures Remains(value, Between(s, tokens[0]).index, QuoteAll(tokens[1..]))
  {
    hide SplitFrom, QuoteAll, QuoteToken, AllNoMarkers, Remains;
    SplitFirst(value, s, tokens);
    AfterToken(value, Closed(s, tokens[0]), Behind(tokens));
    RemainsBehind(value, Closed(s, tokens[0]).index, " ", QuoteAll(tokens[1..]));
  }

  function Behind(tokens: seq<string>): string {
    if |tokens| <= 1 then "" else " " + QuoteAll(tokens[1..])
  }

  lemma BehindFirst(tokens: seq<string>)
    requires tokens != [] && AllNoMarkers(tokens)
    ensures QuoteAll(tokens) == QuoteToken(tokens[0]) + Behind(tokens) && NoMarkers(tokens[0])
  {
    assert tokens[0] in tokens;
  }

  lemma AfterToken(value: string, s: SplitState, after: string)
    requires s.quote == Unquoted && s.started && Remains(value, s.index, after)
    requires after == "" || after[0] == ' '
    ensures after == "" ==> SplitFrom(value, s) == Some(s.tokens + [s.current])
    ensures after != "" ==> SplitFrom(value, s) == SplitFrom(value, Advance(Finish(s), 1))
  {
    if after != "" {
      hide SplitFrom;
      assert value[s.index] == after[0];
      OneStep(value, s);
    }
  }

  ghost predicate AllNoMarkers(tokens: seq<string>) {
    forall t :: t in tokens ==> NoMarkers(t)
  }

  ghost predicate Clean(s: SplitState) {
    AllNoMarkers(s.tokens) && NoMarkers(s.current)
  }

  ghost predicate CleanEffect(effect: Effect) {
    match effect
    case Next(next) => Clean(next)
    case Stop(tokens) => AllNoMarkers(tokens)
    case Reject => true
  }

  lemma CleanMoves(s: SplitState, text: string)
    requires Clean(s) && NoMarkers(text)
    ensures Clean(Finish(s)) && Clean(Append(s, text))
  {
  }

  lemma EscapeClean(value: string, s: SplitState)
    requires Clean(s)
    ensures CleanEffect(EscapeEffect(value, s))
  {
    if s.index + 1 < |value| && EscapedValue(value[s.index + 1]).Some? {
      CleanMoves(s, [EscapedValue(value[s.index + 1]).value]);
    }
    CleanMoves(s, " ");
  }

  lemma StepClean(value: string, s: SplitState)
    requires s.index < |value| && Clean(s)
    ensures CleanEffect(Step(value, s))
  {
    hide EscapeEffect, NoMarkers, AllNoMarkers;
    EscapeClean(value, s);
    NoMarkersIn(" ");
    NoMarkersIn("\\_");
    CleanMoves(s, " ");
    CleanMoves(s, "\\_");
    if !Marker(value[s.index]) {
      NoMarkersIn([value[s.index]]);
      CleanMoves(s, [value[s.index]]);
    }
  }

  lemma NoMarkersIn(text: string)
    ensures (forall k :: 0 <= k < |text| ==> !Marker(text[k])) ==> NoMarkers(text)
  {
  }

  /** Words that come out of the splitter hold no marker. */
  lemma {:induction false} SplitYieldsNoMarkers(value: string, s: SplitState)
    requires Clean(s)
    ensures SplitFrom(value, s).Some? ==> AllNoMarkers(SplitFrom(value, s).value)
    decreases |value| - s.index
  {
    hide Step, NoMarkers, AllNoMarkers;
    if s.index < |value| {
      StepClean(value, s);
      StepAdvances(value, s);
      match Step(value, s)
      case Next(next) => SplitYieldsNoMarkers(value, next);
      case _ =>
    } else {
      CleanMoves(s, s.current);
    }
  }

  lemma StepAdvances(value: string, s: SplitState)
    requires s.index < |value|
    ensures Step(value, s).Next? ==> s.index < Step(value, s).state.index <= |value|
  {
  }

  /** Quoting words, empty ones included, and splitting gives the words back:
      for exactly the words without marker characters. */
  lemma SplitRoundTrip(tokens: seq<string>)
    ensures Split(QuoteAll(tokens)) == Some(tokens) <==> AllNoMarkers(tokens)
  {
    hide SplitFrom, QuoteAll;
    var value := QuoteAll(tokens);
    var start := SplitState([], "", Unquoted, false, 0);
    SplitYieldsNoMarkers(value, start);
    if AllNoMarkers(tokens) {
      assert value[0..] == value;
      SplitQuotedTokens(value, start, tokens);
      assert [] + tokens == tokens;
    }
  }
}
