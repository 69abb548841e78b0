/** scripts/check_container_image_pins.py: finding the command behind `env`,
    with `-S` arguments spliced into the token list while it is being read. */
module EnvCommand {
  import opened Wrappers
  import EnvSplit

  const MAX_EXPANSIONS := 32
  const MAX_TOKENS := 256

  datatype Problem = UnsupportedOption | MissingValue | BadSplitString | TooLarge

  datatype Parse = Parse(
    normalized: seq<string>,
    commandIndex: Option<nat>,
    problem: Option<Problem>,
    split: bool,
    terminal: bool)

  datatype EnvState = EnvState(
    normalized: seq<string>,
    index: nat,
    splitUsed: bool,
    expansions: nat,
    optionsAllowed: bool)

  /** One token's effect: go on, or return a parse. */
  datatype Move = Go(state: EnvState) | Done(parse: Parse)

  // ---- Option spelling ----------------------------------------------------

  predicate HasPrefix(s: string, prefix: string) {
    |prefix| <= |s| && s[..|prefix|] == prefix
  }

  function FirstIndex(s: string, c: char): (i: nat)
    ensures i <= |s| && c !in s[..i] && (i < |s| ==> s[i] == c)
  {
    if s == "" || s[0] == c then 0 else
      var i := FirstIndex(s[1..], c);
      assert s[..i + 1] == [s[0]] + s[1..][..i];
      i + 1
  }

  predicate Assignment(t: string) { '=' in t && !HasPrefix(t, "=") }

  const NO_VALUE_LONG := {
    "--block-signal", "--debug", "--default-signal", "--ignore-environment",
    "--ignore-signal", "--list-signal-handling", "--null"
  }

  predicate NoValueLong(option: string) {
    || option in NO_VALUE_LONG
    || HasPrefix(option, "--block-signal=")
    || HasPrefix(option, "--default-signal=")
    || HasPrefix(option, "--ignore-signal=")
  }

  /** The first option of a short cluster that is not `0`, `i` or `v`, and the text after it. */
  function ShortValueOption(cluster: string): Option<(char, string)> {
    if cluster == "" then None
    else if cluster[0] in "0iv" then ShortValueOption(cluster[1..])
    else Some((cluster[0], cluster[1..]))
  }

  // ---- One token ----------------------------------------------------------

  function Finished(s: EnvState, commandIndex: Option<nat>, problem: Option<Problem>, attempted: bool, terminal: bool): Move {
    Done(Parse(s.normalized, commandIndex, problem, s.splitUsed || attempted, terminal))
  }

  function Skip(s: EnvState, n: nat): Move { Go(s.(index := s.index + n)) }

  /** The option's value and how many tokens it takes; 0 when it is missing. */
  function RequiredValue(s: EnvState, attached: Option<string>): (string, nat) {
    match attached
    case Some(value) => (value, 1)
    case None => if s.index + 1 < |s.normalized| then (s.normalized[s.index + 1], 2) else ("", 0)
  }

  function Spliced(s: EnvState, words: seq<string>, consumed: nat): EnvState
    requires s.index + consumed <= |s.normalized|
  {
    s.(normalized := s.normalized[..s.index] + words + s.normalized[s.index + consumed..],
       splitUsed := true, expansions := s.expansions + 1)
  }

  /** Replace the option's tokens by the words of its argument. */
  function SpliceSplit(s: EnvState, value: string, consumed: nat): Move
    requires s.index + consumed <= |s.normalized|
  {
    match EnvSplit.Split(value)
    case None => Finished(s, None, Some(BadSplitString), true, false)
    case Some(words) =>
      if s.expansions + 1 > MAX_EXPANSIONS || |s.normalized| + |words| > MAX_TOKENS then
        Finished(s, None, Some(TooLarge), true, false)
      else
        Go(Spliced(s, words, consumed))
  }

  function ValueOption(s: EnvState, splits: bool, attached: Option<string>): Move
    requires s.index < |s.normalized|
  {
    var (value, consumed) := RequiredValue(s, attached);
    if consumed == 0 then Finished(s, None, Some(MissingValue), false, false)
    else if splits then SpliceSplit(s, value, consumed)
    else Skip(s, consumed)
  }

  /** What a token asks for; it depends on the token and on whether options may still come. */
  datatype Action = Ignore | EndOptions | IsCommand | ShowHelp | Unsupported | NeedsValue(splits: bool, attached: Option<string>)

  function LongAction(option: string): Action {
    var cut := FirstIndex(option, '=');
    var name := option[..cut];
    if name !in {"--chdir", "--split-string", "--unset"} then Unsupported
    else NeedsValue(name == "--split-string", if cut < |option| then Some(option[cut + 1..]) else None)
  }

  function ShortAction(option: string): Action
    requires option != ""
  {
    match ShortValueOption(option[1..])
    case None => Ignore
    case Some((c, attached)) =>
      if c !in "CSu" then Unsupported else NeedsValue(c == 'S', if attached == "" then None else Some(attached))
  }

  function ActionOf(option: string, optionsAllowed: bool): Action {
    if !optionsAllowed then
      if Assignment(option) then Ignore else IsCommand
    else if option == "--" then EndOptions
    else if Assignment(option) && !HasPrefix(option, "-") then EndOptions
    else if option == "--help" || option == "--version" then ShowHelp
    else if NoValueLong(option) then Ignore
    else if HasPrefix(option, "--") then LongAction(option)
    else if option == "-" then Ignore
    else if !HasPrefix(option, "-") then IsCommand
    else ShortAction(option)
  }

  function Act(s: EnvState, action: Action): Move
    requires s.index < |s.normalized|
  {
    match action
    case Ignore => Skip(s, 1)
    case EndOptions => Skip(s.(optionsAllowed := false), 1)
    case IsCommand => Finished(s, Some(s.index), None, false, false)
    case ShowHelp => Finished(s, None, None, false, true)
    case Unsupported => Finished(s, None, Some(UnsupportedOption), false, false)
    case NeedsValue(splits, attached) => ValueOption(s, splits, attached)
  }

  function Step(s: EnvState): Move
    requires s.index < |s.normalized|
  {
    Act(s, ActionOf(s.normalized[s.index], s.optionsAllowed))
  }

  /** A splice uses up an expansion and leaves the index. */
  ghost predicate Splices(s: EnvState, t: EnvState) {
    && t.expansions == s.expansions + 1 <= MAX_EXPANSIONS && t.index == s.index <= |t.normalized| <= MAX_TOKENS
    && s.index <= |s.normalized| && t.normalized[..s.index] == s.normalized[..s.index]
    && t.optionsAllowed == s.optionsAllowed
  }

  /** Every other token that does not end the parse moves the index on. */
  ghost predicate MovesOn(s: EnvState, t: EnvState) {
    s.index < t.index <= |s.normalized| && t == s.(index := t.index, optionsAllowed := t.optionsAllowed)
  }

  ghost predicate Descends(s: EnvState, move: Move) {
    move.Go? ==> Splices(s, move.state) || MovesOn(s, move.state)
  }

  lemma SpliceDescends(s: EnvState, value: string, consumed: nat)
    requires s.index + consumed <= |s.normalized|
    ensures var move := SpliceSplit(s, value, consumed); move.Go? ==> Splices(s, move.state)
  {
    var move := SpliceSplit(s, value, consumed);
    if move.Go? { assert move.state.normalized[..s.index] == s.normalized[..s.index]; }
  }

  lemma ValueOptionDescends(s: EnvState, splits: bool, attached: Option<string>)
    requires s.index < |s.normalized|
    ensures Descends(s, ValueOption(s, splits, attached))
    ensures !splits ==> var move := ValueOption(s, splits, attached); move.Go? ==> MovesOn(s, move.state)
  {
    hide SpliceSplit;
    var (value, consumed) := RequiredValue(s, attached);
    SpliceDescends(s, value, consumed);
  }

  lemma StepDescends(s: EnvState)
    requires s.index < |s.normalized|
    ensures Descends(s, Step(s))
  {
    hide ActionOf, ValueOption, Splices;
    match ActionOf(s.normalized[s.index], s.optionsAllowed)
    case NeedsValue(splits, attached) => ValueOptionDescends(s, splits, attached);
    case _ =>
  }

  function Run(s: EnvState): Parse
    decreases MAX_EXPANSIONS + 1 - s.expansions, |s.normalized| - s.index
  {
    if s.index >= |s.normalized| then
      Parse(s.normalized, None, None, s.splitUsed, false)
    else
      match Step(s)
      case Done(parse) => parse
      case Go(next) =>
        StepDescends(s);
        Run(next)
  }

  // ---- The parser as written ----------------------------------------------

  class EnvCommandState {
    var normalized: seq<string>
    var index: nat
    var splitUsed: bool
    var expansions: nat
    var optionsAllowed: bool

    constructor (tokens: seq<string>, index: nat)
      ensures Snapshot() == EnvState(tokens, index, false, 0, true)
    {
      normalized, this.index := tokens, index;
      splitUsed, expansions, optionsAllowed := false, 0, true;
    }

    ghost function Snapshot(): EnvState
      reads this
    {
      EnvState(normalized, index, splitUsed, expansions, optionsAllowed)
    }

    /** A move shows as the new state, or as the returned parse. */
    ghost predicate Shows(move: Move, result: Option<Parse>)
      reads this
    {
      match move
      case Go(next) => result == None && Snapshot() == next
      case Done(parse) => result == Some(parse)
    }

    method Result(commandIndex: Option<nat>, problem: Option<Problem>, attempted: bool, terminal: bool)
        returns (result: Option<Parse>)
      ensures result == Some(Finished(Snapshot(), commandIndex, problem, attempted, terminal).parse)
    {
      result := Some(Parse(normalized, commandIndex, problem, splitUsed || attempted, terminal));
    }

    method ConsumeSplitOption(value: string, consumed: nat) returns (result: Option<Parse>)
      requires index + consumed <= |normalized|
      modifies this
      ensures Shows(SpliceSplit(old(Snapshot()), value, consumed), result)
    {
      var words := EnvSplit.GnuEnvSplitString(value);
      if words.None? {
        result := Result(None, Some(BadSplitString), true, false);
        return;
      }
      expansions := expansions + 1;
      if expansions > MAX_EXPANSIONS || |normalized| + |words.value| > MAX_TOKENS {
        result := Result(None, Some(TooLarge), true, false);
        return;
      }
      normalized := normalized[..index] + words.value + normalized[index + consumed..];
      splitUsed := true;
      result := None;
    }

    method ConsumeValueOption(splits: bool, attached: Option<string>) returns (result: Option<Parse>)
      requires index < |normalized|
      modifies this
      ensures Shows(ValueOption(old(Snapshot()), splits, attached), result)
    {
      var value, consumed := "", 0;
      if attached.Some? {
        value, consumed := attached.value, 1;
      } else if index + 1 < |normalized| {
        value, consumed := normalized[index + 1], 2;
      }
      if consumed == 0 {
        result := Result(None, Some(MissingValue), false, false);
      } else if splits {
        result := ConsumeSplitOption(value, consumed);
      } else {
        index := index + consumed;
        result := None;
      }
    }

    method ConsumeLongOption() returns (result: Option<Parse>)
      requires index < |normalized|
      modifies this
      ensures Shows(Act(old(Snapshot()), LongAction(old(normalized[index]))), result)
    {
      var option := normalized[index];
      var cut := FirstIndex(option, '=');
      var name := option[..cut];
      if name !in {"--chdir", "--split-string", "--unset"} {
        result := Result(None, Some(UnsupportedOption), false, false);
        return;
      }
      result := ConsumeValueOption(name == "--split-string", if cut < |option| then Some(option[cut + 1..]) else None);
    }

    method ConsumeShortOption() returns (result: Option<Parse>)
      requires index < |normalized| && normalized[index] != ""
      modifies this
      ensures Shows(Act(old(Snapshot()), ShortAction(old(normalized[index]))), result)
    {
      var found := ShortValueOption(normalized[index][1..]);
      if found.None? {
        index := index + 1;
        return None;
      }
      var (c, attached) := found.value;
      if c !in "CSu" {
        result := Result(None, Some(UnsupportedOption), false, false);
        return;
      }
      result := ConsumeValueOption(c == 'S', if attached == "" then None else Some(attached));
    }

    method ConsumeToken() returns (result: Option<Parse>)
      requires index < |normalized|
      modifies this
      ensures Shows(Step(old(Snapshot())), result)
    {
      var option := normalized[index];
      if !optionsAllowed {
        if Assignment(option) {
          index := index + 1;
          return None;
        }
        result := Result(Some(index), None, false, false);
      } else if option == "--" {
        optionsAllowed, index := false, index + 1;
        result := None;
      } else if Assignment(option) && !HasPrefix(option, "-") {
        optionsAllowed, index := false, index + 1;
        result := None;
      } else if option == "--help" || option == "--version" {
        result := Result(None, None, false, true);
      } else if NoValueLong(option) {
        index := index + 1;
        result := None;
      } else if HasPrefix(option, "--") {
        result := ConsumeLongOption();
      } else if option == "-" {
        index := index + 1;
        result := None;
      } else if !HasPrefix(option, "-") {
        result := Result(Some(index), None, false, false);
      } else {
        result := ConsumeShortOption();
      }
    }
  }

  /** The loop ends on every token list although it feeds itself tokens. */
  method ParseGnuEnvCommand(tokens: seq<string>, envIndex: nat) returns (parse: Parse)
    ensures parse == Run(EnvState(tokens, envIndex + 1, false, 0, true))
  {
    hide Step;
    var state := new EnvCommandState(tokens, envIndex + 1);
    while state.index < |state.normalized|
      invariant Run(EnvState(tokens, envIndex + 1, false, 0, true)) == Run(state.Snapshot())
      invariant state.expansions <= MAX_EXPANSIONS
      decreases MAX_EXPANSIONS + 1 - state.expansions, |state.normalized| - state.index
    {
      ghost var before := state.Snapshot();
      var result := state.ConsumeToken();
      if result.Some? {
        return result.value;
      }
      StepDescends(before);
    }
    parse := Parse(state.normalized, None, None, state.splitUsed, false);
  }

  // ---- What the parse means -----------------------------------------------

  function Max(a: nat, b: nat): nat { if a < b then b else a }

  /** Everything up to and including `env` is kept, a returned index points past
      it at a word that is no assignment, and splicing never grows the list
      beyond the limit. */
  lemma {:induction false} ParseOutcome(s: EnvState)
    requires s.index <= |s.normalized|
    ensures var r := Run(s);
      && s.index <= |r.normalized| <= Max(|s.normalized|, MAX_TOKENS)
      && r.normalized[..s.index] == s.normalized[..s.index]
      && (r.commandIndex.Some? ==>
            && s.index <= r.commandIndex.value < |r.normalized|
            && !Assignment(r.normalized[r.commandIndex.value])
            && r.problem.None? && !r.terminal)
    decreases MAX_EXPANSIONS + 1 - s.expansions, |s.normalized| - s.index
  {
    hide Step, Run;
    if s.index < |s.normalized| {
      RunCases(s);
      StepDescends(s);
      match Step(s)
      case Done(parse) =>
        DoneKeeps(s);
      case Go(next) =>
        ParseOutcome(next);
        var r := Run(next);
        assert r.normalized[..s.index] == r.normalized[..next.index][..s.index];
        assert next.normalized[..s.index] == next.normalized[..next.index][..s.index];
    } else {
      RunAtEnd(s);
    }
  }

  lemma DoneKeeps(s: EnvState)
    requires s.index < |s.normalized| && Step(s).Done?
    ensures var r := Step(s).parse;
      && r.normalized == s.normalized
      && (r.commandIndex.Some? ==>
            && r.commandIndex.value == s.index && !Assignment(s.normalized[s.index])
            && r.problem.None? && !r.terminal && r.split == s.splitUsed)
      && (r.problem.None? ==> r.split == s.splitUsed)
  {
    CommandIsNoAssignment(s.normalized[s.index], s.optionsAllowed);
    hide ActionOf, Assignment;
  }

  lemma CommandIsNoAssignment(option: string, optionsAllowed: bool)
    ensures ActionOf(option, optionsAllowed).IsCommand? ==> !Assignment(option)
    ensures optionsAllowed && ActionOf(option, optionsAllowed).IsCommand? ==> !HasPrefix(option, "-")
    ensures optionsAllowed && ActionOf(option, optionsAllowed).EndOptions? ==> Separator(option)
  {
  }

  // ---- A step reads only the tokens it consumes ---------------------------

  ghost predicate SamePlace(s: EnvState, s': EnvState) {
    s'.index == s.index && s'.optionsAllowed == s.optionsAllowed
  }

  ghost predicate Agree(a: seq<string>, b: seq<string>, n: nat) {
    n <= |a| && n <= |b| && a[..n] == b[..n]
  }

  lemma AgreeAt(a: seq<string>, b: seq<string>, n: nat, k: nat)
    requires Agree(a, b, n) && k < n
    ensures a[k] == b[k]
  {
    assert a[..n][k] == b[..n][k];
  }

  lemma ValueOptionSame(s: EnvState, s': EnvState, splits: bool, attached: Option<string>)
    requires SamePlace(s, s') && s.index < |s.normalized| && s.index < |s'.normalized|
    requires var move := ValueOption(s, splits, attached);
      move.Go? && MovesOn(s, move.state) && Agree(s.normalized, s'.normalized, move.state.index)
    ensures !splits
    ensures var t := ValueOption(s, splits, attached).state;
      t.optionsAllowed == s.optionsAllowed && ValueOption(s', splits, attached) == Skip(s', t.index - s.index)
  {
    hide SpliceSplit;
    var (value, consumed) := RequiredValue(s, attached);
    SpliceDescends(s, value, consumed);
  }

  /** A step that moves on does the same wherever the consumed tokens are the same. */
  lemma StepSame(s: EnvState, s': EnvState)
    requires SamePlace(s, s') && s.index < |s.normalized| && Step(s).Go? && MovesOn(s, Step(s).state)
    requires Agree(s.normalized, s'.normalized, Step(s).state.index)
    ensures var t := Step(s).state;
      Step(s') == Go(s'.(index := t.index, optionsAllowed := t.optionsAllowed))
  {
    hide ActionOf, ValueOption, Splices;
    var t := Step(s).state;
    AgreeAt(s.normalized, s'.normalized, t.index, s.index);
    match ActionOf(s.normalized[s.index], s.optionsAllowed)
    case NeedsValue(splits, attached) => ValueOptionSame(s, s', splits, attached);
    case _ =>
  }

  /** A step that ends the parse without a problem looks at one token. */
  lemma DoneSame(s: EnvState, s': EnvState)
    requires SamePlace(s, s') && s.index < |s.normalized| && s.index < |s'.normalized|
    requires s'.normalized[s.index] == s.normalized[s.index]
    requires Step(s).Done? && Step(s).parse.problem.None?
    ensures var r := Step(s).parse;
      Step(s') == Done(Parse(s'.normalized, r.commandIndex, None, s'.splitUsed, r.terminal))
  {
    hide ActionOf;
  }

  /** Normalising is idempotent: parsing the normalised list again finds the
      same command at the same index, this time without any splice. */
  lemma {:induction false} ReparseNormalized(s: EnvState, s': EnvState)
    requires s.index <= |s.normalized| && Run(s).problem.None?
    requires SamePlace(s, s') && s'.normalized == Run(s).normalized && !s'.splitUsed
    ensures Run(s') == Run(s).(split := false)
    decreases MAX_EXPANSIONS + 1 - s.expansions, |s.normalized| - s.index
  {
    hide Step, Run;
    ParseOutcome(s);
    if s.index < |s.normalized| {
      RunCases(s);
      StepDescends(s);
      match Step(s)
      case Done(parse) =>
        DoneKeeps(s);
        DoneSame(s, s');
        RunCases(s');
      case Go(next) =>
        if Splices(s, next) {
          ReparseNormalized(next, s');
        } else {
          ParseOutcome(next);
          StepSame(s, s');
          var next' := Step(s').state;
          ReparseNormalized(next, next');
          RunCases(s');
        }
    } else {
      RunAtEnd(s);
      RunAtEnd(s');
    }
  }

  lemma RunCases(s: EnvState)
    requires s.index < |s.normalized|
    ensures Run(s) == match Step(s) case Done(parse) => parse case Go(next) => Run(next)
  {
    hide Step;
  }

  lemma RunAtEnd(s: EnvState)
    requires s.index >= |s.normalized|
    ensures Run(s) == Parse(s.normalized, None, None, s.splitUsed, false)
  {
  }

  function Extended(s: EnvState, extra: seq<string>): EnvState { s.(normalized := s.normalized + extra) }

  function ExtendedParse(r: Parse, extra: seq<string>): Parse { r.(normalized := r.normalized + extra) }

  /** The length the list is checked for when the token at the index is spliced; 0 when it is not. */
  function SpliceSize(s: EnvState): nat
    requires s.index < |s.normalized|
  {
    match ActionOf(s.normalized[s.index], s.optionsAllowed)
    case NeedsValue(true, attached) =>
      (match EnvSplit.Split(RequiredValue(s, attached).0)
       case Some(words) => |s.normalized| + |words|
       case None => 0)
    case _ => 0
  }

  /** The largest length checked by a splice of the parse that goes through. */
  function Peak(s: EnvState): nat
    decreases MAX_EXPANSIONS + 1 - s.expansions, |s.normalized| - s.index
  {
    if s.index >= |s.normalized| then 0 else
      match Step(s)
      case Done(_) => 0
      case Go(next) =>
        StepDescends(s);
        Max(if next.expansions > s.expansions then SpliceSize(s) else 0, Peak(next))
  }

  /** The parse stopped at a token: it neither ran to the end nor looked for a value beyond it. */
  predicate StopsInside(r: Parse) {
    r.commandIndex.Some? || r.terminal || (r.problem.Some? && r.problem != Some(MissingValue))
  }

  lemma SpliceSplitExtended(s: EnvState, extra: seq<string>, value: string, consumed: nat, words: seq<string>)
    requires s.index + consumed <= |s.normalized| && EnvSplit.Split(value) == Some(words)
    ensures SpliceSplit(s, value, consumed)
         == if s.expansions + 1 > MAX_EXPANSIONS || |s.normalized| + |words| > MAX_TOKENS
            then Finished(s, None, Some(TooLarge), true, false) else Go(Spliced(s, words, consumed))
    ensures SpliceSplit(Extended(s, extra), value, consumed)
         == if s.expansions + 1 > MAX_EXPANSIONS || |s.normalized| + |extra| + |words| > MAX_TOKENS
            then Finished(Extended(s, extra), None, Some(TooLarge), true, false)
            else Go(Extended(Spliced(s, words, consumed), extra))
  {
    hide EnvSplit.Split;
    RestExtended(s, extra, consumed, words);
  }

  lemma ValueOptionExtended(s: EnvState, extra: seq<string>, splits: bool, attached: Option<string>)
    requires s.index < |s.normalized| && ActionOf(s.normalized[s.index], s.optionsAllowed) == NeedsValue(splits, attached)
    ensures StepExtends(s, extra)
  {
    hide ActionOf, SpliceSplit, EnvSplit.Split;
    var s' := Extended(s, extra);
    assert s'.normalized[s.index] == s.normalized[s.index];
    var (value, consumed) := RequiredValue(s, attached);
    if consumed > 0 {
      assert RequiredValue(s', attached) == (value, consumed);
      if splits {
        match EnvSplit.Split(value)
        case None => NoSplice(s, value, consumed); NoSplice(s', value, consumed);
        case Some(words) => SpliceSplitExtended(s, extra, value, consumed, words);
      }
    }
  }

  lemma NoSplice(s: EnvState, value: string, consumed: nat)
    requires s.index + consumed <= |s.normalized| && EnvSplit.Split(value).None?
    ensures SpliceSplit(s, value, consumed) == Finished(s, None, Some(BadSplitString), true, false)
  {
  }

  lemma RestExtended(s: EnvState, extra: seq<string>, consumed: nat, words: seq<string>)
    requires s.index + consumed <= |s.normalized|
    ensures Extended(s, extra).normalized[..s.index] + words + Extended(s, extra).normalized[s.index + consumed..]
         == s.normalized[..s.index] + words + s.normalized[s.index + consumed..] + extra
  {
    var s' := Extended(s, extra);
    assert s'.normalized[..s.index] == s.normalized[..s.index];
    assert s'.normalized[s.index + consumed..] == s.normalized[s.index + consumed..] + extra;
  }

  /** With more tokens behind it a step is the same, or a splice no longer fits. */
  ghost predicate StepExtends(s: EnvState, extra: seq<string>)
    requires s.index < |s.normalized|
  {
    match Step(s)
    case Done(r) => StopsInside(r) ==> Step(Extended(s, extra)) == Done(ExtendedParse(r, extra))
    case Go(next) =>
      if next.expansions > s.expansions && SpliceSize(s) + |extra| > MAX_TOKENS
      then Step(Extended(s, extra)).Done? && Step(Extended(s, extra)).parse.problem == Some(TooLarge)
      else Step(Extended(s, extra)) == Go(Extended(next, extra))
  }

  lemma {:induction false} StepExtended(s: EnvState, extra: seq<string>)
    requires s.index < |s.normalized|
    ensures StepExtends(s, extra)
    ensures Step(s).Go? && Step(s).state.expansions > s.expansions ==> SpliceSize(s) > 0
  {
    hide ActionOf;
    assert Extended(s, extra).normalized[s.index] == s.normalized[s.index];
    match ActionOf(s.normalized[s.index], s.optionsAllowed)
    case NeedsValue(splits, attached) => ValueOptionExtended(s, extra, splits, attached);
    case _ =>
  }

  /** Words behind the token at which a parse stops are never looked at: with
      more of them it stops there again, whatever it found, and they follow
      unchanged, exactly when every splice on the way still fits the limit. */
  lemma {:induction false} ArgumentsUntouched(s: EnvState, extra: seq<string>)
    requires s.index <= |s.normalized| && StopsInside(Run(s))
    ensures if Peak(s) > 0 && Peak(s) + |extra| > MAX_TOKENS
            then Run(Extended(s, extra)).problem == Some(TooLarge)
            else Run(Extended(s, extra)) == ExtendedParse(Run(s), extra)
    decreases MAX_EXPANSIONS + 1 - s.expansions, |s.normalized| - s.index
  {
    hide Step, Run, Peak, SpliceSize;
    if s.index < |s.normalized| {
      RunCases(s);
      RunCases(Extended(s, extra));
      PeakCases(s);
      StepDescends(s);
      StepExtended(s, extra);
      match Step(s)
      case Done(_) =>
      case Go(next) => ArgumentsUntouched(next, extra);
    } else {
      RunAtEnd(s);
    }
  }

  lemma {:induction false} PeakCases(s: EnvState)
    requires s.index < |s.normalized|
    ensures Peak(s) == match Step(s)
      case Done(_) => 0
      case Go(next) => Max(if next.expansions > s.expansions then SpliceSize(s) else 0, Peak(next))
  {
    hide Step, SpliceSize;
  }

  // ---- Unread arguments stay a suffix -------------------------------------

  /** How many tokens the action at the index takes. */
  function Taken(s: EnvState): nat
    requires s.index < |s.normalized|
  {
    match ActionOf(s.normalized[s.index], s.optionsAllowed)
    case NeedsValue(_, None) => 2
    case _ => 1
  }

  /** Where the original arguments not yet read start after the step that leads
      to next: a token that is read leaves them, and the words of a splice go in
      before them. */
  function Later(s: EnvState, next: EnvState, at: int): int
    requires s.index < |s.normalized|
  {
    var read := s.index + Taken(s);
    (if at < read then read else at) + |next.normalized| - |s.normalized|
  }

  /** Where they start once the parse stops, if they start at `at` now. */
  function Unread(s: EnvState, at: int): int
    decreases MAX_EXPANSIONS + 1 - s.expansions, |s.normalized| - s.index
  {
    if s.index >= |s.normalized| then at else
      match Step(s)
      case Done(_) => at
      case Go(next) =>
        StepDescends(s);
        Unread(next, Later(s, next, at))
  }

  lemma {:induction false} UnreadCases(s: EnvState, at: int)
    requires s.index < |s.normalized|
    ensures Unread(s, at) == match Step(s) case Done(_) => at case Go(next) => Unread(next, Later(s, next, at))
  {
    hide Step, Later;
  }

  lemma UnreadAtEnd(s: EnvState, at: int)
    requires s.index >= |s.normalized|
    ensures Unread(s, at) == at
  {
  }

  /** The end of a list from a position on is the end of another. */
  ghost predicate SameTail(a: seq<string>, at: int, b: seq<string>, from: int) {
    0 <= at <= |a| && 0 <= from <= |b| && a[at..] == b[from..]
  }

  /** A step reads at most the tokens it takes and leaves the arguments behind them as they are. */
  lemma StepLeavesUnread(s: EnvState, next: EnvState, at: int) returns (from: int)
    requires s.index < |s.normalized| && s.index <= at <= |s.normalized| && Step(s) == Go(next)
    ensures at <= from && next.index <= Later(s, next, at)
    ensures SameTail(next.normalized, Later(s, next, at), s.normalized, from)
  {
    hide Step, Taken;
    var read := s.index + Taken(s);
    from := if at < read then read else at;
    if next.expansions != s.expansions {
      var words := SpliceWords(s, next);
      SplicedTail(s, words, Taken(s), from);
    } else {
      StayedInPlace(s, next);
    }
  }

  lemma SplicedTail(s: EnvState, words: seq<string>, consumed: nat, from: int)
    requires s.index + consumed <= from <= |s.normalized|
    ensures var t := Spliced(s, words, consumed).normalized;
      SameTail(t, from + |t| - |s.normalized|, s.normalized, from) && |t| == |s.normalized| + |words| - consumed
  {
    var t := Spliced(s, words, consumed).normalized;
    assert t[from + |t| - |s.normalized|..] == s.normalized[from..];
  }

  lemma StayedInPlace(s: EnvState, next: EnvState)
    requires s.index < |s.normalized| && Step(s) == Go(next) && next.expansions == s.expansions
    ensures next.normalized == s.normalized && next.index == s.index + Taken(s) <= |s.normalized|
  {
    hide ActionOf, SpliceSplit;
    match ActionOf(s.normalized[s.index], s.optionsAllowed)
    case NeedsValue(splits, attached) =>
      if splits {
        var (value, consumed) := RequiredValue(s, attached);
        var words := WordsOf(s, value, consumed, next);
      }
    case _ =>
  }

  lemma WordsOf(s: EnvState, value: string, consumed: nat, next: EnvState) returns (words: seq<string>)
    requires s.index + consumed <= |s.normalized| && SpliceSplit(s, value, consumed) == Go(next)
    ensures next == Spliced(s, words, consumed)
  {
    words := EnvSplit.Split(value).value;
  }

  lemma SpliceWords(s: EnvState, next: EnvState) returns (words: seq<string>)
    requires s.index < |s.normalized| && Step(s) == Go(next) && next.expansions != s.expansions
    ensures s.index + Taken(s) <= |s.normalized| && next == Spliced(s, words, Taken(s))
  {
    hide ActionOf, SpliceSplit;
    match ActionOf(s.normalized[s.index], s.optionsAllowed)
    case NeedsValue(splits, attached) =>
      var (value, consumed) := RequiredValue(s, attached);
      words := WordsOf(s, value, consumed, next);
    case _ =>
  }

  lemma TailShorter(a: seq<string>, at: int, b: seq<string>, from: int, later: int)
    requires SameTail(a, at, b, from) && at <= later <= |a|
    ensures SameTail(a, later, b, from + later - at)
  {
    assert a[later..] == a[at..][later - at..];
    assert b[from + later - at..] == b[from..][later - at..];
  }

  lemma TailJoins(a: seq<string>, at: int, b: seq<string>, from: int, c: seq<string>, start: int)
    requires SameTail(a, at, b, from) && SameTail(b, from, c, start)
    ensures SameTail(a, at, c, start)
  {
  }

  /** For every parse, errors included: the original arguments not read are the
      end of the normalised list, word for word and in order, and a returned
      command does not lie beyond their start. */
  lemma {:induction false} UnreadArguments(s: EnvState, at: int) returns (from: int)
    requires s.index <= at <= |s.normalized|
    ensures at <= from && SameTail(Run(s).normalized, Unread(s, at), s.normalized, from)
    ensures Run(s).commandIndex.Some? ==> Run(s).commandIndex.value <= Unread(s, at)
    decreases MAX_EXPANSIONS + 1 - s.expansions, |s.normalized| - s.index
  {
    hide Step, Run, Unread, Later;
    if s.index < |s.normalized| {
      RunCases(s);
      UnreadCases(s, at);
      StepDescends(s);
      match Step(s)
      case Done(_) =>
        DoneKeeps(s);
        from := at;
      case Go(next) =>
        var first := StepLeavesUnread(s, next, at);
        var at' := Later(s, next, at);
        from := UnreadArguments(next, at');
        TailShorter(next.normalized, at', s.normalized, first, from);
        from := first + from - at';
        TailJoins(Run(s).normalized, Unread(s, at), next.normalized, from - first + at', s.normalized, from);
    } else {
      RunAtEnd(s);
      UnreadAtEnd(s, at);
      from := at;
    }
  }

  // ---- Where an option-like command can stand -----------------------------

  predicate Separator(t: string) { t == "--" || (Assignment(t) && !HasPrefix(t, "-")) }

  /** The returned command starts with a dash. */
  ghost predicate DashCommand(r: Parse) {
    match r.commandIndex
    case None => false
    case Some(i) => i < |r.normalized| && HasPrefix(r.normalized[i], "-")
  }

  lemma OptionsEnd(s: EnvState)
    requires s.index < |s.normalized| && s.optionsAllowed
    ensures Step(s).Done? ==> !DashCommand(Step(s).parse)
    ensures Step(s).Go? && !Step(s).state.optionsAllowed ==>
      Separator(s.normalized[s.index]) && MovesOn(s, Step(s).state)
  {
    hide ActionOf, ValueOption, Separator, HasPrefix;
    CommandIsNoAssignment(s.normalized[s.index], s.optionsAllowed);
    match ActionOf(s.normalized[s.index], s.optionsAllowed)
    case NeedsValue(splits, attached) => ValueOptionNoCommand(s, splits, attached);
    case _ =>
  }

  lemma ValueOptionNoCommand(s: EnvState, splits: bool, attached: Option<string>)
    requires s.index < |s.normalized|
    ensures var move := ValueOption(s, splits, attached);
      (move.Done? ==> move.parse.commandIndex.None?) && (move.Go? ==> move.state.optionsAllowed == s.optionsAllowed)
  {
  }

  /** An option-like word is a command only after `--` or an assignment. */
  lemma {:induction false} DashCommandAfterSeparator(s: EnvState)
    requires s.index <= |s.normalized| && s.optionsAllowed && DashCommand(Run(s))
    ensures var r := Run(s);
      exists j :: s.index <= j < r.commandIndex.value && j < |r.normalized| && Separator(r.normalized[j])
    decreases MAX_EXPANSIONS + 1 - s.expansions, |s.normalized| - s.index
  {
    hide Step, Run, Separator;
    if s.index < |s.normalized| {
      RunCases(s);
      StepDescends(s);
      OptionsEnd(s);
      var next := Step(s).state;
      ParseOutcome(next);
      if next.optionsAllowed {
        DashCommandAfterSeparator(next);
      } else {
        AgreeAt(Run(s).normalized, s.normalized, next.index, s.index);
      }
    } else {
      RunAtEnd(s);
    }
  }
}
