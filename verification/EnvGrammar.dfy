/** A grammar of `env` invocations ("env invocation" in the GNU Coreutils manual)
    and what the parser does on everything it prints. */
module EnvGrammar {
  import opened Wrappers
  import EnvSplit
  import opened EnvCommand

  /** The short options without a value: -i, -0 and -v. */
  datatype Flag = IgnoreEnvironment | NullEnds | Verbose

  /** The long options without a value. */
  datatype Switch = LongIgnoreEnvironment | LongNull | LongDebug | ListSignals | SomeSignals(which: Handling)

  datatype Handling = Block | Default | IgnoreSignal

  /** The options with a value. */
  datatype Valued = Unset | Chdir | SplitString

  /** -u, possibly behind flags in one cluster, or --unset. */
  datatype Spelling = Short(cluster: seq<Flag>) | Long

  datatype EnvOption =
    | Dash
    | Flags(flags: seq<Flag>)
    | LongFlag(switch: Switch)
    | Signals(which: Handling, names: string)
    | Value(option: Valued, spelling: Spelling, attached: bool, value: string)

  function Letter(f: Flag): char {
    match f
    case IgnoreEnvironment => 'i'
    case NullEnds => '0'
    case Verbose => 'v'
  }

  function Letters(flags: seq<Flag>): string {
    if flags == [] then "" else [Letter(flags[0])] + Letters(flags[1..])
  }

  function SignalsName(h: Handling): string {
    match h
    case Block => "--block-signal"
    case Default => "--default-signal"
    case IgnoreSignal => "--ignore-signal"
  }

  function SwitchName(switch: Switch): string {
    match switch
    case LongIgnoreEnvironment => "--ignore-environment"
    case LongNull => "--null"
    case LongDebug => "--debug"
    case ListSignals => "--list-signal-handling"
    case SomeSignals(h) => SignalsName(h)
  }

  function LongName(v: Valued): string {
    match v
    case Unset => "--unset"
    case Chdir => "--chdir"
    case SplitString => "--split-string"
  }

  function ShortName(v: Valued): char {
    match v
    case Unset => 'u'
    case Chdir => 'C'
    case SplitString => 'S'
  }

  /** The first token of an option. */
  function Head(o: EnvOption): string {
    match o
    case Dash => "-"
    case Flags(flags) => "-" + Letters(flags)
    case LongFlag(switch) => SwitchName(switch)
    case Signals(h, names) => SignalsName(h) + "=" + names
    case Value(v, Short(cluster), attached, value) =>
      "-" + (Letters(cluster) + [ShortName(v)] + if attached then value else "")
    case Value(v, Long, attached, value) => if attached then LongName(v) + "=" + value else LongName(v)
  }

  function Print(o: EnvOption): seq<string> {
    [Head(o)] + if o.Value? && !o.attached then [o.value] else []
  }

  /** An empty value cannot be attached to a short option. */
  predicate OptionOk(o: EnvOption) {
    match o
    case Flags(flags) => flags != []
    case Value(_, Short(_), attached, value) => attached ==> value != ""
    case _ => true
  }

  predicate Plain(o: EnvOption) { OptionOk(o) && !(o.Value? && o.option.SplitString?) }

  // ---- Each spelling is read as what it is --------------------------------

  function Wanted(o: EnvOption): Action {
    if o.Value? then NeedsValue(o.option.SplitString?, if o.attached then Some(o.value) else None) else Ignore
  }

  lemma {:induction false} FlagsOnly(flags: seq<Flag>)
    ensures ShortValueOption(Letters(flags)) == None
    decreases |flags|
  {
    if flags != [] {
      FlagsOnly(flags[1..]);
      assert Letters(flags)[1..] == Letters(flags[1..]);
    }
  }

  lemma {:induction false} FlagsThen(flags: seq<Flag>, c: char, value: string)
    requires c !in "0iv"
    ensures ShortValueOption(Letters(flags) + [c] + value) == Some((c, value))
    decreases |flags|
  {
    var text := Letters(flags) + [c] + value;
    if flags == [] {
      assert text[1..] == value;
    } else {
      FlagsThen(flags[1..], c, value);
      assert text[1..] == Letters(flags[1..]) + [c] + value;
    }
  }

  lemma FirstIsAt(name: string, rest: string, c: char)
    requires c !in name
    ensures FirstIndex(name + [c] + rest, c) == |name|
  {
    var s := name + [c] + rest;
    var i := FirstIndex(s, c);
    assert s[|name|] == c;
    assert forall k :: 0 <= k < |name| ==> s[k] == name[k] && name[k] in name;
    assert forall k :: 0 <= k < i ==> s[k] == s[..i][k] && s[k] in s[..i];
  }

  lemma FirstIsNowhere(name: string, c: char)
    requires c !in name
    ensures FirstIndex(name, c) == |name|
  {
  }

  lemma Dashes(s: string)
    ensures HasPrefix(s, "-") <==> s != "" && s[0] == '-'
    ensures HasPrefix(s, "--") <==> |s| > 1 && s[0] == '-' && s[1] == '-'
  {
    if |s| > 0 { assert s[..1] == [s[0]]; }
    if |s| > 1 { assert s[..2] == [s[0], s[1]]; }
  }

  /** A short cluster is neither a long option nor one of the words with a meaning of their own. */
  lemma ShortIsShort(text: string)
    requires text != "" && text[0] != '-'
    ensures ActionOf("-" + text, true) == ShortAction("-" + text)
  {
    var t := "-" + text;
    Dashes(t);
    assert t[1] == text[0];
    NoLongPrefix(t);
  }

  lemma NoLongPrefix(t: string)
    requires |t| > 1 && t[1] != '-'
    ensures !NoValueLong(t) && t != "--" && t != "--help" && t != "--version"
  {
    PrefixAt(t, "--block-signal=", 1);
    PrefixAt(t, "--default-signal=", 1);
    PrefixAt(t, "--ignore-signal=", 1);
  }

  lemma PrefixAt(t: string, prefix: string, k: nat)
    ensures k < |prefix| && HasPrefix(t, prefix) ==> k < |t| && t[k] == prefix[k]
  {
    if k < |prefix| && HasPrefix(t, prefix) { assert t[..|prefix|][k] == prefix[k]; }
  }

  lemma LettersStart(flags: seq<Flag>, c: char, value: string)
    requires c != '-'
    ensures var text := Letters(flags) + [c] + value; text != "" && text[0] != '-'
  {
  }

  lemma NoValueLongReads(name: string)
    requires NoValueLong(name) && |name| > 2 && name[0] == '-' && name != "--help" && name != "--version"
    ensures ActionOf(name, true) == Ignore
  {
    hide NoValueLong;
    Dashes(name);
  }

  lemma SignalsRead(h: Handling, names: string)
    ensures ActionOf(SignalsName(h) + "=" + names, true) == Ignore
  {
    var t := SignalsName(h) + "=" + names;
    assert t[..|SignalsName(h)| + 1] == SignalsName(h) + "=";
    assert SignalsName(h) + "=" == match h
      case Block => "--block-signal="
      case Default => "--default-signal="
      case IgnoreSignal => "--ignore-signal=";
    assert t[2] == SignalsName(h)[2];
    NoValueLongReads(t);
  }

  lemma LongValueReads(v: Valued, tail: string)
    requires tail == "" || tail[0] == '='
    ensures var attached := if tail == "" then None else Some(tail[1..]);
      ActionOf(LongName(v) + tail, true) == NeedsValue(v.SplitString?, attached)
  {
    hide ActionOf, LongName, LongAction;
    var name := LongName(v);
    var t := name + tail;
    LongNameLetters(v);
    assert t[0] == name[0] && t[1] == name[1] && t[2] == name[2];
    LongIsLong(t);
    LongValueActs(v, tail);
  }

  lemma LongIsLong(t: string)
    requires |t| > 2 && t[0] == '-' && t[1] == '-' && t[2] in "ucs"
    ensures ActionOf(t, true) == LongAction(t)
  {
    Dashes(t);
    NotNoValue(t);
    hide NoValueLong, Assignment, LongAction;
  }

  lemma LongValueActs(v: Valued, tail: string)
    requires tail == "" || tail[0] == '='
    ensures LongAction(LongName(v) + tail) == NeedsValue(v.SplitString?, if tail == "" then None else Some(tail[1..]))
  {
    var name := LongName(v);
    LongNameLetters(v);
    assert name == "--split-string" <==> v.SplitString?;
    hide LongName, FirstIndex;
    CutAt(name, tail);
  }

  lemma CutAt(name: string, tail: string)
    requires '=' !in name && (tail == "" || tail[0] == '=')
    ensures var t := name + tail; var cut := FirstIndex(t, '=');
      t[..cut] == name && (cut < |t| <==> tail != "") && (tail != "" ==> t[cut + 1..] == tail[1..])
  {
    var t := name + tail;
    if tail == "" {
      FirstIsNowhere(name, '=');
      assert t == name;
    } else {
      assert t == name + "=" + tail[1..];
      FirstIsAt(name, tail[1..], '=');
    }
  }

  lemma LongNameLetters(v: Valued)
    ensures var n := LongName(v); '=' !in n && |n| > 2 && n[0] == '-' && n[1] == '-' && n[2] in "ucs"
    ensures LongName(v) in {"--chdir", "--split-string", "--unset"}
  {
  }

  lemma NotNoValue(t: string)
    requires |t| > 2 && t[2] in "ucs"
    ensures !NoValueLong(t) && t != "--" && t != "--help" && t != "--version"
  {
    PrefixAt(t, "--block-signal=", 2);
    PrefixAt(t, "--default-signal=", 2);
    PrefixAt(t, "--ignore-signal=", 2);
  }

  lemma SwitchReads(switch: Switch)
    ensures ActionOf(SwitchName(switch), true) == Ignore
  {
    var name := SwitchName(switch);
    assert name in NO_VALUE_LONG && |name| > 2 && name[0] == '-' && name != "--help" && name != "--version";
    NoValueLongReads(name);
  }

  /** Every option, in each of its spellings, is read as the grammar says. */
  lemma OptionReads(o: EnvOption)
    requires OptionOk(o)
    ensures ActionOf(Head(o), true) == Wanted(o)
  {
    hide ActionOf, Letters, SwitchName, SignalsName, LongName;
    match o
    case Dash => DashReads();
    case Flags(flags) => FlagsRead(flags);
    case LongFlag(switch) => SwitchReads(switch);
    case Signals(h, names) => SignalsRead(h, names);
    case Value(v, Short(cluster), attached, value) =>
      ShortValueReads(v, cluster, if attached then value else "");
    case Value(v, Long, attached, value) =>
      LongValueReads(v, if attached then "=" + value else "");
      assert LongName(v) + "=" + value == LongName(v) + ("=" + value) && LongName(v) + "" == LongName(v);
  }

  lemma DashReads()
    ensures ActionOf("-", true) == Ignore
  {
    var t := "-";
    Dashes(t);
    PrefixAt(t, "--block-signal=", 1);
    PrefixAt(t, "--default-signal=", 1);
    PrefixAt(t, "--ignore-signal=", 1);
  }

  lemma FlagsRead(flags: seq<Flag>)
    requires flags != []
    ensures ActionOf("-" + Letters(flags), true) == Ignore
  {
    FlagsOnly(flags);
    hide ActionOf;
    ShortIsShort(Letters(flags));
    assert ("-" + Letters(flags))[1..] == Letters(flags);
  }

  lemma ShortValueReads(v: Valued, cluster: seq<Flag>, value: string)
    ensures ActionOf("-" + (Letters(cluster) + [ShortName(v)] + value), true)
         == NeedsValue(v.SplitString?, if value == "" then None else Some(value))
  {
    var text := Letters(cluster) + [ShortName(v)] + value;
    FlagsThen(cluster, ShortName(v), value);
    LettersStart(cluster, ShortName(v), value);
    hide ActionOf, Letters;
    ShortIsShort(text);
    assert ("-" + text)[1..] == text;
  }

  // ---- Options, and -S strings among them ---------------------------------

  /** An option as it stands, or a -S whose string splits into options of its own. */
  datatype Arg = Single(option: EnvOption) | Splice(spelling: Spelling, attached: bool, text: string, inner: seq<Arg>)

  function PrintArg(a: Arg): seq<string> {
    match a
    case Single(o) => Print(o)
    case Splice(spelling, attached, text, _) => Print(Value(SplitString, spelling, attached, text))
  }

  function PrintAll(args: seq<Arg>): seq<string> {
    if args == [] then [] else PrintArg(args[0]) + PrintAll(args[1..])
  }

  predicate ArgsOk(args: seq<Arg>)
    decreases args, 0
  {
    args != [] ==> ArgOk(args[0]) && ArgsOk(args[1..])
  }

  predicate ArgOk(a: Arg)
    decreases a, 1
  {
    match a
    case Single(o) => Plain(o)
    case Splice(spelling, attached, text, inner) =>
      && OptionOk(Value(SplitString, spelling, attached, text))
      && EnvSplit.Split(text) == Some(PrintAll(inner)) && ArgsOk(inner)
  }

  /** The options with every -S replaced by what its string splits into. */
  function Expanded(args: seq<Arg>): seq<string>
    decreases args, 0
  {
    if args == [] then [] else ExpandedArg(args[0]) + Expanded(args[1..])
  }

  function ExpandedArg(a: Arg): seq<string>
    decreases a, 1
  {
    match a
    case Single(o) => Print(o)
    case Splice(_, _, _, inner) => Expanded(inner)
  }

  /** How many strings are split, those inside others included. */
  function Splices(args: seq<Arg>): nat
    decreases args, 0
  {
    if args == [] then 0 else SplicesIn(args[0]) + Splices(args[1..])
  }

  function SplicesIn(a: Arg): nat
    decreases a, 1
  {
    if a.Splice? then 1 + Splices(a.inner) else 0
  }

  function Size(args: seq<Arg>): nat
    decreases args, 0
  {
    if args == [] then 0 else SizeOf(args[0]) + Size(args[1..])
  }

  function SizeOf(a: Arg): (n: nat)
    ensures n > 0
    decreases a, 1
  {
    if a.Splice? then 1 + Size(a.inner) else 1
  }

  lemma {:induction false} ArgsConcat(a: seq<Arg>, b: seq<Arg>)
    ensures PrintAll(a + b) == PrintAll(a) + PrintAll(b) && Expanded(a + b) == Expanded(a) + Expanded(b)
    ensures Splices(a + b) == Splices(a) + Splices(b) && Size(a + b) == Size(a) + Size(b)
    ensures ArgsOk(a + b) <==> ArgsOk(a) && ArgsOk(b)
    decreases |a|
  {
    hide PrintArg, ExpandedArg, ArgOk, SplicesIn, SizeOf;
    if a == [] {
      assert a + b == b;
    } else {
      assert (a + b)[0] == a[0] && (a + b)[1..] == a[1..] + b;
      ArgsConcat(a[1..], b);
      assert PrintArg(a[0]) + (PrintAll(a[1..]) + PrintAll(b)) == PrintArg(a[0]) + PrintAll(a[1..]) + PrintAll(b);
      assert ExpandedArg(a[0]) + (Expanded(a[1..]) + Expanded(b)) == ExpandedArg(a[0]) + Expanded(a[1..]) + Expanded(b);
    }
  }

  /** Every string is split within the limits, in a list of this length and
      after this many expansions. */
  predicate Fits(length: nat, expansions: nat, args: seq<Arg>)
    decreases Size(args)
  {
    if args == [] then true
    else
      match args[0]
      case Single(_) => Fits(length, expansions, args[1..])
      case Splice(_, _, _, inner) =>
        ArgsConcat(inner, args[1..]);
        assert Size(args) == 1 + Size(inner) + Size(args[1..]);
        && expansions + 1 <= 32 && length + |PrintAll(inner)| <= 256
        && |PrintArg(args[0])| <= length + |PrintAll(inner)|
        && Fits(length + |PrintAll(inner)| - |PrintArg(args[0])|, expansions + 1, inner + args[1..])
  }

  // ---- Parsing printed options --------------------------------------------

  /** The tokens from the index on. */
  ghost predicate Ahead(s: EnvState, text: seq<string>) {
    s.index <= |s.normalized| && s.normalized[s.index..] == text
  }

  lemma AheadAt(s: EnvState, text: seq<string>, k: nat)
    requires Ahead(s, text) && k < |text|
    ensures s.index + k < |s.normalized| && s.normalized[s.index + k] == text[k]
  {
    assert s.normalized[s.index..][k] == s.normalized[s.index + k];
  }

  lemma AheadBehind(s: EnvState, head: seq<string>, rest: seq<string>)
    requires Ahead(s, head + rest)
    ensures Ahead(s.(index := s.index + |head|), rest)
    ensures s.normalized == s.normalized[..s.index] + (head + rest)
    ensures s.normalized[..s.index + |head|] == s.normalized[..s.index] + head
  {
    var t := s.normalized;
    assert t[s.index + |head|..] == t[s.index..][|head|..];
    assert t[..s.index + |head|] == t[..s.index] + t[s.index..][..|head|];
  }

  lemma OptionStep(s: EnvState, o: EnvOption, rest: seq<string>)
    requires s.optionsAllowed && OptionOk(o) && Ahead(s, Print(o) + rest)
    ensures s.index < |s.normalized| && s.index + |Print(o)| <= |s.normalized|
    ensures Step(s) == if o.Value? && o.option.SplitString? then SpliceSplit(s, o.value, |Print(o)|)
                       else Go(s.(index := s.index + |Print(o)|))
  {
    hide ActionOf, Head, SpliceSplit;
    OptionReads(o);
    AheadAt(s, Print(o) + rest, 0);
    if o.Value? && !o.attached { AheadAt(s, Print(o) + rest, 1); }
  }

  lemma MissingStep(s: EnvState, o: EnvOption)
    requires s.optionsAllowed && OptionOk(o) && o.Value? && !o.attached && Ahead(s, [Head(o)])
    ensures Run(s) == Parse(s.normalized, None, Some(MissingValue), s.splitUsed, false)
  {
    hide ActionOf, Head, SpliceSplit;
    OptionReads(o);
    AheadAt(s, [Head(o)], 0);
  }

  /** Where parsing stands behind the options. */
  function Behind(s: EnvState, args: seq<Arg>, rest: seq<string>): EnvState
    requires s.index <= |s.normalized|
  {
    EnvState(s.normalized[..s.index] + Expanded(args) + rest, s.index + |Expanded(args)|,
             s.splitUsed || Splices(args) > 0, s.expansions + Splices(args), s.optionsAllowed)
  }

  /** Printed options are passed over, each -S string replaced in its place by
      the options it splits into; where a limit does not allow that, the parse is too large. */
  lemma {:induction false} OptionsPassed(s: EnvState, args: seq<Arg>, rest: seq<string>)
    requires s.optionsAllowed && ArgsOk(args) && Ahead(s, PrintAll(args) + rest)
    ensures Fits(|s.normalized|, s.expansions, args) ==> Run(s) == Run(Behind(s, args, rest))
    ensures !Fits(|s.normalized|, s.expansions, args) ==>
      var r := Run(s); r.commandIndex == None && r.problem == Some(TooLarge) && r.split
    decreases Size(args)
  {
    hide Run, Step, Ahead, PrintArg, ArgOk, ExpandedArg, SplicesIn;
    if args == [] {
      NothingPassed(s, rest);
    } else {
      hide Fits;
      FitsCases(|s.normalized|, s.expansions, args);
      match args[0]
      case Single(o) =>
        SinglePassed(s, args, o, rest);
        OptionsPassed(s.(index := s.index + |Print(o)|), args[1..], rest);
      case Splice(_, _, _, inner) =>
        SpliceCases(s, args, rest);
        ArgsConcat(inner, args[1..]);
        var length := |s.normalized| + |PrintAll(inner)|;
        if s.expansions + 1 <= MAX_EXPANSIONS && length <= MAX_TOKENS {
          var t := Spliced(s, PrintAll(inner), |PrintArg(args[0])|);
          Regroup([], PrintAll(inner), PrintAll(args[1..]), rest);
          OptionsPassed(t, inner + args[1..], rest);
          SpliceBehind(s, t, args, rest);
        }
    }
  }

  lemma NothingPassed(s: EnvState, rest: seq<string>)
    requires Ahead(s, PrintAll([]) + rest)
    ensures Behind(s, [], rest) == s && Fits(|s.normalized|, s.expansions, [])
  {
    assert PrintAll([]) + rest == rest && s.normalized[..s.index] + [] + rest == s.normalized;
  }

  lemma FitsCases(length: nat, expansions: nat, args: seq<Arg>)
    requires args != []
    ensures match args[0]
      case Single(_) => Fits(length, expansions, args) == Fits(length, expansions, args[1..])
      case Splice(_, _, _, inner) =>
        var longer := length + |PrintAll(inner)|;
        |PrintArg(args[0])| <= longer ==>
          Fits(length, expansions, args) == (expansions + 1 <= MAX_EXPANSIONS && longer <= MAX_TOKENS
            && Fits(longer - |PrintArg(args[0])|, expansions + 1, inner + args[1..]))
  {
  }

  lemma SinglePassed(s: EnvState, args: seq<Arg>, o: EnvOption, rest: seq<string>)
    requires s.optionsAllowed && ArgsOk(args) && args != [] && args[0] == Single(o) && Ahead(s, PrintAll(args) + rest)
    ensures var t := s.(index := s.index + |Print(o)|);
      && Run(s) == Run(t) && Ahead(t, PrintAll(args[1..]) + rest)
      && t.index <= |t.normalized| && Behind(t, args[1..], rest) == Behind(s, args, rest)
  {
    var tail := PrintAll(args[1..]);
    PrintAllFirst(args, rest);
    hide *;
    OptionStep(s, o, tail + rest);
    RunCases(s);
    AheadBehind(s, Print(o), tail + rest);
    AheadInside(s.(index := s.index + |Print(o)|), tail + rest);
    SingleBehind(s, args, o, rest);
  }

  lemma PrintAllFirst(args: seq<Arg>, rest: seq<string>)
    requires args != [] && ArgsOk(args)
    ensures PrintAll(args) + rest == PrintArg(args[0]) + (PrintAll(args[1..]) + rest)
    ensures match args[0]
      case Single(o) => PrintArg(args[0]) == Print(o) && OptionOk(o) && !(o.Value? && o.option.SplitString?)
      case Splice(spelling, attached, text, inner) =>
        var o := Value(SplitString, spelling, attached, text);
        PrintArg(args[0]) == Print(o) && OptionOk(o) && EnvSplit.Split(text) == Some(PrintAll(inner)) && ArgsOk(inner)
  {
    hide Print;
    Regroup([], PrintArg(args[0]), PrintAll(args[1..]), rest);
  }

  lemma AheadInside(s: EnvState, text: seq<string>)
    requires Ahead(s, text)
    ensures s.index <= |s.normalized|
  {
  }

  lemma SingleBehind(s: EnvState, args: seq<Arg>, o: EnvOption, rest: seq<string>)
    requires args != [] && args[0] == Single(o) && s.index + |Print(o)| <= |s.normalized|
    requires s.normalized[..s.index + |Print(o)|] == s.normalized[..s.index] + Print(o)
    ensures Behind(s.(index := s.index + |Print(o)|), args[1..], rest) == Behind(s, args, rest)
  {
    assert Expanded(args) == Print(o) + Expanded(args[1..]) && Splices(args) == Splices(args[1..]);
    hide Expanded, Splices, Print;
    Regroup(s.normalized[..s.index], Print(o), Expanded(args[1..]), rest);
  }

  lemma Regroup(a: seq<string>, b: seq<string>, c: seq<string>, d: seq<string>)
    ensures a + b + c + d == a + (b + c) + d && b + c + d == b + (c + d)
  {
  }

  lemma SpliceCases(s: EnvState, args: seq<Arg>, rest: seq<string>)
    requires s.optionsAllowed && ArgsOk(args) && args != [] && args[0].Splice? && Ahead(s, PrintAll(args) + rest)
    ensures var a := args[0]; var words := PrintAll(a.inner);
      && s.index + |PrintArg(a)| <= |s.normalized| && ArgsOk(a.inner)
      && Size(a.inner) + Size(args[1..]) < Size(args)
      && if s.expansions + 1 > MAX_EXPANSIONS || |s.normalized| + |words| > MAX_TOKENS
         then Run(s) == Parse(s.normalized, None, Some(TooLarge), true, false)
         else Run(s) == Run(Spliced(s, words, |PrintArg(a)|)) && SplicedWell(s, Spliced(s, words, |PrintArg(a)|), |PrintArg(a)|,
                                                                             words, PrintAll(args[1..]) + rest)
  {
    var a := args[0];
    var o := Value(SplitString, a.spelling, a.attached, a.text);
    var tail, words := PrintAll(args[1..]), PrintAll(a.inner);
    PrintAllFirst(args, rest);
    assert Size(args) == SizeOf(a) + Size(args[1..]);
    hide Run, Step, Print, PrintAll, PrintArg, Ahead, EnvSplit.Split, SplicedWell, ArgsOk, OptionOk, Size;
    OptionStep(s, o, tail + rest);
    RunCases(s);
    AheadBehind(s, Print(o), tail + rest);
    SplicedAhead(s, words, |Print(o)|, tail + rest);
  }

  /** The words stand where the option stood. */
  ghost predicate SplicedWell(s: EnvState, t: EnvState, consumed: nat, words: seq<string>, rest: seq<string>) {
    && Ahead(t, words + rest) && t.index == s.index <= |s.normalized| && t.index <= |t.normalized|
    && t.normalized[..t.index] == s.normalized[..s.index] && |t.normalized| == |s.normalized| + |words| - consumed
  }

  lemma SpliceBehind(s: EnvState, t: EnvState, args: seq<Arg>, rest: seq<string>)
    requires args != [] && args[0].Splice? && s.index <= |s.normalized| && t.index == s.index <= |t.normalized|
    requires t.normalized[..t.index] == s.normalized[..s.index] && t.optionsAllowed == s.optionsAllowed
    requires t.splitUsed && t.expansions == s.expansions + 1
    ensures Behind(t, args[0].inner + args[1..], rest) == Behind(s, args, rest)
  {
    ArgsConcat(args[0].inner, args[1..]);
    assert Expanded(args) == Expanded(args[0].inner) + Expanded(args[1..]);
    assert Splices(args) == 1 + Splices(args[0].inner) + Splices(args[1..]);
    hide Expanded, Splices;
  }

  lemma SplicedAhead(s: EnvState, words: seq<string>, consumed: nat, rest: seq<string>)
    requires s.index + consumed <= |s.normalized| && Ahead(s.(index := s.index + consumed), rest)
    ensures SplicedWell(s, Spliced(s, words, consumed), consumed, words, rest)
  {
    var t := Spliced(s, words, consumed);
    assert t.normalized == s.normalized[..s.index] + words + rest;
    assert t.normalized[s.index..] == words + rest;
  }

  /** Without a -S nothing is replaced and no limit matters. */
  lemma {:induction false} NothingSpliced(args: seq<Arg>, length: nat, expansions: nat)
    requires Splices(args) == 0
    ensures Expanded(args) == PrintAll(args) && Fits(length, expansions, args)
    decreases |args|
  {
    if args != [] { NothingSpliced(args[1..], length, expansions); }
  }

  // ---- What ends the options, and the command -----------------------------

  datatype Setting = Setting(name: string, value: string)

  function PrintSetting(a: Setting): string { a.name + "=" + a.value }

  predicate SettingOk(a: Setting) { a.name != "" && '=' !in a.name }

  predicate DashName(a: Setting) { a.name != "" && a.name[0] == '-' }

  function PrintSettings(settings: seq<Setting>): seq<string> {
    if settings == [] then [] else [PrintSetting(settings[0])] + PrintSettings(settings[1..])
  }

  /** Perhaps a separator, and the assignments behind the options. */
  datatype Ending = Ending(separator: bool, settings: seq<Setting>)

  function PrintEnding(e: Ending): seq<string> { (if e.separator then ["--"] else []) + PrintSettings(e.settings) }

  /** Without a separator the first name must not look like an option. */
  predicate EndingOk(e: Ending) {
    && (forall i :: 0 <= i < |e.settings| ==> SettingOk(e.settings[i]))
    && (!e.separator && e.settings != [] ==> !DashName(e.settings[0]))
  }

  predicate Ended(e: Ending) { e.separator || e.settings != [] }

  /** A command is no assignment and, while options may come, no option. */
  ghost predicate CommandWord(w: string, ended: bool) {
    && (forall a :: SettingOk(a) ==> PrintSetting(a) != w)
    && (!ended ==> w == "" || w[0] != '-')
  }

  lemma SettingReads(w: string)
    ensures Assignment(w) <==> exists a :: SettingOk(a) && PrintSetting(a) == w
  {
    EqualsFirst(w);
    if Assignment(w) {
      var i := FirstIndex(w, '=');
      assert w == w[..i] + w[i..];
      var a := Setting(w[..i], w[i + 1..]);
      assert SettingOk(a) && PrintSetting(a) == w;
    }
    if a :| SettingOk(a) && PrintSetting(a) == w {
      assert w[|a.name|] == '=' && w[0] == a.name[0] && a.name[0] in a.name;
    }
  }

  lemma EqualsFirst(w: string)
    ensures HasPrefix(w, "=") <==> w != "" && w[0] == '='
  {
    if w != "" { assert w[..1] == [w[0]]; }
  }

  lemma SettingStep(s: EnvState, a: Setting, rest: seq<string>)
    requires SettingOk(a) && Ahead(s, [PrintSetting(a)] + rest) && (s.optionsAllowed ==> !DashName(a))
    ensures var t := s.(index := s.index + 1, optionsAllowed := false); Run(s) == Run(t) && Ahead(t, rest)
  {
    var w := PrintSetting(a);
    AheadAt(s, [w] + rest, 0);
    assert w[0] == a.name[0];
    Dashes(w);
    SettingReads(w);
    assert Step(s) == Go(s.(index := s.index + 1, optionsAllowed := false));
    hide Run, Step;
    RunCases(s);
    AheadBehind(s, [w], rest);
  }

  lemma {:induction false} SettingsPassed(s: EnvState, settings: seq<Setting>, rest: seq<string>)
    requires forall i :: 0 <= i < |settings| ==> SettingOk(settings[i])
    requires Ahead(s, PrintSettings(settings) + rest)
    requires s.optionsAllowed && settings != [] ==> !DashName(settings[0])
    ensures var t := s.(index := s.index + |PrintSettings(settings)|, optionsAllowed := s.optionsAllowed && settings == []);
      Run(s) == Run(t) && Ahead(t, rest)
    decreases |settings|
  {
    hide Run, Ahead, SettingOk;
    if settings == [] {
      assert PrintSettings(settings) + rest == rest;
    } else {
      var tail := PrintSettings(settings[1..]);
      assert PrintSettings(settings) + rest == [PrintSetting(settings[0])] + (tail + rest);
      SettingStep(s, settings[0], tail + rest);
      SettingsPassed(s.(index := s.index + 1, optionsAllowed := false), settings[1..], rest);
    }
  }

  lemma SeparatorStep(s: EnvState, rest: seq<string>)
    requires s.optionsAllowed && Ahead(s, ["--"] + rest)
    ensures var t := s.(index := s.index + 1, optionsAllowed := false); Run(s) == Run(t) && Ahead(t, rest)
  {
    AheadAt(s, ["--"] + rest, 0);
    assert Step(s) == Go(s.(index := s.index + 1, optionsAllowed := false));
    hide Run, Step;
    RunCases(s);
    AheadBehind(s, ["--"], rest);
  }

  lemma EndingPassed(s: EnvState, e: Ending, rest: seq<string>)
    requires s.optionsAllowed && EndingOk(e) && Ahead(s, PrintEnding(e) + rest)
    ensures var t := s.(index := s.index + |PrintEnding(e)|, optionsAllowed := !Ended(e)); Run(s) == Run(t) && Ahead(t, rest)
  {
    hide Run, Ahead, PrintSettings, SettingOk;
    var tail := PrintSettings(e.settings);
    if e.separator {
      assert PrintEnding(e) + rest == ["--"] + (tail + rest);
      SeparatorStep(s, tail + rest);
      SettingsPassed(s.(index := s.index + 1, optionsAllowed := false), e.settings, rest);
    } else {
      assert PrintEnding(e) == tail;
      SettingsPassed(s, e.settings, rest);
    }
  }

  lemma CommandFound(s: EnvState, command: seq<string>)
    requires Ahead(s, command) && (command != [] ==> CommandWord(command[0], !s.optionsAllowed))
    ensures Run(s) == Parse(s.normalized, if command == [] then None else Some(s.index), None, s.splitUsed, false)
  {
    if command == [] {
      AtEnd(s);
      RunAtEnd(s);
    } else {
      var w := command[0];
      AheadAt(s, command, 0);
      Dashes(w);
      SettingReads(w);
      CommandReads(w, s.optionsAllowed);
      hide ActionOf;
      RunCases(s);
    }
  }

  lemma AtEnd(s: EnvState)
    requires Ahead(s, [])
    ensures s.index >= |s.normalized|
  {
    assert |s.normalized[s.index..]| == |s.normalized| - s.index;
  }

  lemma CommandReads(w: string, optionsAllowed: bool)
    requires !Assignment(w) && (optionsAllowed ==> !HasPrefix(w, "-"))
    ensures ActionOf(w, optionsAllowed) == IsCommand
  {
    if optionsAllowed {
      Dashes(w);
      PrefixAt(w, "--block-signal=", 0);
      PrefixAt(w, "--default-signal=", 0);
      PrefixAt(w, "--ignore-signal=", 0);
    }
  }

  /** A printed invocation is parsed as it was meant: every option takes its
      value, every -S string is replaced in its place, and the command is the
      word behind the options, the separator and the assignments. */
  lemma InvocationParsed(before: seq<string>, args: seq<Arg>, e: Ending, command: seq<string>)
    requires ArgsOk(args) && EndingOk(e) && (command != [] ==> CommandWord(command[0], Ended(e)))
    requires Fits(|before + (PrintAll(args) + (PrintEnding(e) + command))|, 0, args)
    ensures var expanded := before + Expanded(args);
      Run(EnvState(before + (PrintAll(args) + (PrintEnding(e) + command)), |before|, false, 0, true))
      == Parse(expanded + (PrintEnding(e) + command),
               if command == [] then None else Some(|expanded| + |PrintEnding(e)|), None, Splices(args) > 0, false)
  {
    hide Run, Fits, PrintAll, PrintEnding, Expanded, CommandWord, ArgsOk, EndingOk;
    var rest := PrintEnding(e) + command;
    var s := EnvState(before + (PrintAll(args) + rest), |before|, false, 0, true);
    assert Ahead(s, PrintAll(args) + rest);
    OptionsPassed(s, args, rest);
    assert s.normalized[..s.index] == before;
    var t := Behind(s, args, rest);
    assert Ahead(t, rest);
    hide Ahead;
    EndingPassed(t, e, command);
    CommandFound(t.(index := t.index + |PrintEnding(e)|, optionsAllowed := !Ended(e)), command);
  }

  // ---- What is refused ----------------------------------------------------

  function FlagOf(c: char): Flag { if c == 'i' then IgnoreEnvironment else if c == '0' then NullEnds else Verbose }

  lemma {:induction false} ClusterOf(text: string) returns (flags: seq<Flag>)
    ensures match ShortValueOption(text)
      case None => Letters(flags) == text
      case Some((c, value)) => Letters(flags) + [c] + value == text
    decreases |text|
  {
    if text == "" || text[0] !in "0iv" {
      flags := [];
      assert text != "" ==> Letters(flags) + [text[0]] + text[1..] == text;
    } else {
      var rest := ClusterOf(text[1..]);
      flags := [FlagOf(text[0])] + rest;
      assert flags[1..] == rest && text == [text[0]] + text[1..];
      if ShortValueOption(text).Some? {
        var (c, value) := ShortValueOption(text).value;
        assert [text[0]] + (Letters(rest) + [c] + value) == [text[0]] + Letters(rest) + [c] + value;
      }
    }
  }

  /** Whatever the parser takes for an option is the first token of one. */
  lemma KnownHead(w: string) returns (o: EnvOption)
    requires w != "" && w[0] == '-'
    requires ActionOf(w, true).Ignore? || ActionOf(w, true).NeedsValue?
    ensures OptionOk(o) && Head(o) == w
  {
    Dashes(w);
    if w == "-" {
      o := Dash;
    } else if NoValueLong(w) {
      o := KnownSwitch(w);
    } else if HasPrefix(w, "--") {
      o := KnownLong(w);
    } else {
      o := KnownShort(w);
    }
  }

  lemma KnownSwitch(w: string) returns (o: EnvOption)
    requires NoValueLong(w)
    ensures OptionOk(o) && Head(o) == w
  {
    if w in NO_VALUE_LONG {
      o := LongFlag(
        if w == "--block-signal" then SomeSignals(Block)
        else if w == "--default-signal" then SomeSignals(Default)
        else if w == "--ignore-signal" then SomeSignals(IgnoreSignal)
        else if w == "--debug" then LongDebug
        else if w == "--ignore-environment" then LongIgnoreEnvironment
        else if w == "--list-signal-handling" then ListSignals
        else LongNull);
    } else {
      var h := if HasPrefix(w, "--block-signal=") then Block else if HasPrefix(w, "--default-signal=") then Default else IgnoreSignal;
      var n := |SignalsName(h)| + 1;
      assert SignalsName(h) + "=" == match h
        case Block => "--block-signal="
        case Default => "--default-signal="
        case IgnoreSignal => "--ignore-signal=";
      o := Signals(h, w[n..]);
      assert w == w[..n] + w[n..];
    }
  }

  lemma KnownLong(w: string) returns (o: EnvOption)
    requires LongAction(w).NeedsValue?
    ensures OptionOk(o) && Head(o) == w
  {
    var cut := FirstIndex(w, '=');
    var name := w[..cut];
    var v := if name == "--unset" then Unset else if name == "--chdir" then Chdir else SplitString;
    assert LongName(v) == name;
    if cut < |w| {
      o := Value(v, Long, true, w[cut + 1..]);
      assert w == name + "=" + w[cut + 1..];
    } else {
      o := Value(v, Long, false, "");
    }
  }

  lemma KnownShort(w: string) returns (o: EnvOption)
    requires |w| > 1 && w[0] == '-' && !ShortAction(w).Unsupported?
    ensures OptionOk(o) && Head(o) == w
  {
    var flags := ClusterOf(w[1..]);
    assert w == "-" + w[1..];
    match ShortValueOption(w[1..])
    case None => o := Flags(flags);
    case Some((c, value)) =>
      var v := if c == 'u' then Unset else if c == 'C' then Chdir else SplitString;
      o := Value(v, Short(flags), value != "", value);
      assert ShortName(v) == c;
      hide Letters, ShortValueOption;
      assert value == "" ==> Letters(flags) + [c] + "" == Letters(flags) + [c] + value;
  }

  /** A word with a leading dash that is the first token of no option, no
      separator and no request for help is refused. */
  lemma UnknownRefused(s: EnvState, w: string, rest: seq<string>)
    requires s.optionsAllowed && Ahead(s, [w] + rest)
    requires w != "" && w[0] == '-' && w != "--" && w != "--help" && w != "--version"
    requires forall o :: OptionOk(o) ==> Head(o) != w
    ensures Run(s) == Parse(s.normalized, None, Some(UnsupportedOption), s.splitUsed, false)
  {
    AheadAt(s, [w] + rest, 0);
    OnlyUnsupported(w);
    hide ActionOf, Head, OptionOk;
    if ActionOf(w, true).Ignore? || ActionOf(w, true).NeedsValue? { var o := KnownHead(w); }
    RunCases(s);
  }

  lemma OnlyUnsupported(w: string)
    requires w != "" && w[0] == '-' && w != "--" && w != "--help" && w != "--version"
    ensures ActionOf(w, true).Ignore? || ActionOf(w, true).NeedsValue? || ActionOf(w, true).Unsupported?
  {
    Dashes(w);
  }

  /** A -S string that does not split is refused. */
  lemma BadStringRefused(s: EnvState, o: EnvOption, rest: seq<string>)
    requires s.optionsAllowed && OptionOk(o) && o.Value? && o.option.SplitString? && Ahead(s, Print(o) + rest)
    requires EnvSplit.Split(o.value) == None
    ensures Run(s) == Parse(s.normalized, None, Some(BadSplitString), true, false)
  {
    hide Run, Step, Print, Ahead, EnvSplit.Split;
    OptionStep(s, o, rest);
    RunCases(s);
  }

  /** A request for help ends the parse without a command. */
  lemma HelpEnds(s: EnvState, w: string, rest: seq<string>)
    requires s.optionsAllowed && w in {"--help", "--version"} && Ahead(s, [w] + rest)
    ensures Run(s) == Parse(s.normalized, None, None, s.splitUsed, true)
  {
    AheadAt(s, [w] + rest, 0);
    Dashes(w);
    assert ActionOf(w, true) == ShowHelp;
    hide ActionOf;
    RunCases(s);
  }

  /** An option whose value would have to follow and does not is refused. */
  lemma MissingRefused(before: seq<string>, args: seq<Arg>, o: EnvOption)
    requires ArgsOk(args) && Splices(args) == 0 && OptionOk(o) && o.Value? && !o.attached
    ensures var tokens := before + (PrintAll(args) + [Head(o)]);
      Run(EnvState(tokens, |before|, false, 0, true)) == Parse(tokens, None, Some(MissingValue), false, false)
  {
    hide Run, Fits, PrintAll, Expanded, ArgsOk, Head;
    var rest := [Head(o)];
    var s := EnvState(before + (PrintAll(args) + rest), |before|, false, 0, true);
    assert Ahead(s, PrintAll(args) + rest);
    NothingSpliced(args, |s.normalized|, 0);
    OptionsPassed(s, args, rest);
    assert s.normalized[..s.index] == before;
    var t := Behind(s, args, rest);
    assert Ahead(t, rest) && t.normalized == s.normalized;
    hide Ahead;
    MissingStep(t, o);
  }
}
