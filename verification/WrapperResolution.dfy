/** scripts/check_container_image_pins.py: which token of a command line is the
    executed command, behind assignments and command wrappers. */
module WrapperResolution {
  import opened Wrappers
  import opened EnvCommand

  /** A token index; nothing to execute; or a refused command line. */
  datatype Position = At(index: nat) | Nowhere | Failed

  // ---- Names --------------------------------------------------------------

  /** The last component of a path, as `Path(token).name`: empty and `.` components do not count. */
  function Name(token: string): string {
    var cut := FirstIndex(token, '/');
    if cut == |token| then Component(token) else
      var rest := Name(token[cut + 1..]);
      if rest == "" then Component(token[..cut]) else rest
  }

  function Component(text: string): string {
    if text == "." then "" else text
  }

  predicate Letter(c: char) { 'a' <= c <= 'z' || 'A' <= c <= 'Z' || c == '_' }

  predicate Identifier(s: string) {
    s != "" && Letter(s[0]) && forall c :: c in s ==> Letter(c) || '0' <= c <= '9'
  }

  /** `name=value` with a shell name. */
  predicate ShellAssignment(token: string) {
    '=' in token && Identifier(token[..FirstIndex(token, '=')])
  }

  /** `$name` or `${name}`. */
  predicate ShellVariable(token: string) {
    |token| > 1 && token[0] == '$' &&
    (Identifier(token[1..]) ||
     (|token| > 3 && token[1] == '{' && token[|token| - 1] == '}' && Identifier(token[2..|token| - 1])))
  }

  const DATA_COMMANDS := {"echo", "log", "printf", "proof", "warn"}
  const INTERPRETERS := {"ash", "bash", "dash", "hush", "sh", "zsh"}
  const DOCKER_VERBS := {"build", "compose", "container", "create", "image", "pull", "run"}
  const WRAPPERS := {
    "builtin", "busybox", "command", "env", "exec", "nice", "nohup",
    "setsid", "sudo", "stdbuf", "time", "timeout", "xargs"
  }

  predicate Docker(token: string) { Name(token) == "docker" || Name(token) == "docker-compose" }

  predicate DockerInvocation(tokens: seq<string>, index: nat) {
    index + 1 < |tokens| && tokens[index + 1] in DOCKER_VERBS
  }

  /** Commands the gate knows how to judge. */
  predicate Recognized(tokens: seq<string>, index: nat)
    requires index < |tokens|
  {
    || Name(tokens[index]) in DATA_COMMANDS
    || Name(tokens[index]) in INTERPRETERS + {"eval"}
    || Docker(tokens[index])
    || (ShellVariable(tokens[index]) && DockerInvocation(tokens, index))
  }

  predicate DockerLike(tokens: seq<string>, index: nat) {
    index < |tokens| && (Docker(tokens[index]) || ShellVariable(tokens[index])) && DockerInvocation(tokens, index)
  }

  // ---- Option lists of the wrappers ---------------------------------------

  const SUDO_VALUE_OPTIONS := {
    "-C", "--close-from", "-D", "--chdir", "-g", "--group", "-h", "--host", "-p", "--prompt", "-R", "--chroot",
    "-r", "--role", "-t", "--type", "-T", "--command-timeout", "-u", "--user"
  }
  const TIMEOUT_VALUE_OPTIONS := {"-k", "--kill-after", "-s", "--signal"}
  const STDBUF_VALUE_OPTIONS := {"-e", "-i", "-o", "--error", "--input", "--output"}

  /** Value options of the wrappers that only skip options. */
  function SkippedOptions(name: string): Option<set<string>> {
    if name == "nice" then Some({"-n", "--adjustment"})
    else if name == "nohup" || name == "setsid" then Some({})
    else if name == "time" then Some({"-f", "--format", "-o", "--output"})
    else if name == "xargs" then Some({
      "-a", "--arg-file", "-E", "--eof", "-d", "--delimiter", "-I", "--replace", "-L", "--max-lines",
      "-n", "--max-args", "-P", "--max-procs", "-s", "--max-chars", "--process-slot-var"
    })
    else None
  }

  predicate Dash(tokens: seq<string>, index: nat) {
    index < |tokens| && HasPrefix(tokens[index], "-")
  }

  function OptionsEnd(tokens: seq<string>, index: nat, valueOptions: set<string>): (end: nat)
    ensures end >= index
    decreases |tokens| - index
  {
    if !Dash(tokens, index) then index
    else OptionsEnd(tokens, index + (if tokens[index] in valueOptions then 2 else 1), valueOptions)
  }

  /** What an option-reading wrapper does with one dash token: skip some tokens,
      end its options after this one, or refuse. */
  datatype Reading = Skips(n: nat) | Ends | Refuses

  function StdbufReading(option: string): (r: Reading)
    ensures r.Skips? ==> r.n > 0
  {
    if option in STDBUF_VALUE_OPTIONS then Skips(2)
    else if '=' in option && option[..FirstIndex(option, '=')] in STDBUF_VALUE_OPTIONS then Skips(1)
    else if |option| > 2 && option[1] in "eio" && '\n' !in option[2..] then Skips(1)
    else if option == "--" then Ends
    else Refuses
  }

  function SudoReading(option: string): (r: Reading)
    ensures r.Skips? ==> r.n > 0
  {
    if option == "--" then Ends else if option in SUDO_VALUE_OPTIONS then Skips(2) else Skips(1)
  }

  predicate Cluster(option: string, letters: string) {
    option != "" && !HasPrefix(option, "--") && forall c :: c in option[1..] ==> c in letters
  }

  function ExecReading(option: string): (r: Reading)
    ensures r.Skips? ==> r.n > 0
  {
    if option == "--" then Ends
    else if HasPrefix(option, "--argv0=") then Skips(1)
    else if option == "--argv0" || (Cluster(option, "acl") && 'a' in option[1..]) then Skips(2)
    else if Cluster(option, "cl") then Skips(1)
    else Refuses
  }

  datatype Reader = Stdbuf | Sudo | Exec

  function ReadingOf(reader: Reader, option: string): (r: Reading)
    ensures r.Skips? ==> r.n > 0
  {
    match reader
    case Stdbuf => StdbufReading(option)
    case Sudo => SudoReading(option)
    case Exec => ExecReading(option)
  }

  function ReadOptions(reader: Reader, tokens: seq<string>, index: nat): (p: Position)
    ensures p.At? ==> p.index >= index
    ensures p != Nowhere
    decreases |tokens| - index
  {
    if !Dash(tokens, index) then At(index)
    else
      match ReadingOf(reader, tokens[index])
      case Skips(n) => ReadOptions(reader, tokens, index + n)
      case Ends => At(index + 1)
      case Refuses => Failed
  }

  function SkipWords(tokens: seq<string>, index: nat, words: set<string>): (end: nat)
    ensures end >= index
    decreases |tokens| - index
  {
    if index < |tokens| && tokens[index] in words then SkipWords(tokens, index + 1, words) else index
  }

  function CommandBuiltin(tokens: seq<string>, index: nat): (p: Position)
    ensures p.At? ==> p.index >= index
  {
    if index < |tokens| && tokens[index] in {"-V", "-v"} then Nowhere
    else At(SkipWords(tokens, index, {"--", "-p"}))
  }

  /** A parse of the tokens behind `env`; any use of `-S` is refused. */
  function EnvPosition(tokens: seq<string>, index: nat): Position {
    var parse := Run(EnvState(tokens, index, false, 0, true));
    if parse.problem.Some? || parse.split then Failed
    else if parse.commandIndex.Some? then At(parse.commandIndex.value)
    else Nowhere
  }

  /** Where the command behind the wrapper at index starts. */
  function Wrapped(tokens: seq<string>, index: nat): Position
    requires index < |tokens| && Name(tokens[index]) in WRAPPERS
  {
    var name := Name(tokens[index]);
    if name == "exec" then ReadOptions(Exec, tokens, index + 1)
    else if name == "sudo" then ReadOptions(Sudo, tokens, index + 1)
    else if SkippedOptions(name).Some? then At(OptionsEnd(tokens, index + 1, SkippedOptions(name).value))
    else if name == "timeout" then At(OptionsEnd(tokens, index + 1, TIMEOUT_VALUE_OPTIONS) + 1)
    else if name == "env" then EnvPosition(tokens, index + 1)
    else if name == "busybox" then At(index + 1)
    else if name == "builtin" then At(SkipWords(tokens, index + 1, {"--"}))
    else if name == "stdbuf" then ReadOptions(Stdbuf, tokens, index + 1)
    else CommandBuiltin(tokens, index + 1)
  }

  /** Every peel strictly advances. */
  lemma WrappedAdvances(tokens: seq<string>, index: nat)
    requires index < |tokens| && Name(tokens[index]) in WRAPPERS
    ensures Wrapped(tokens, index).At? ==> Wrapped(tokens, index).index > index
  {
    hide SkippedOptions, Name, EnvPosition;
    EnvAdvances(tokens, index + 1);
  }

  lemma EnvAdvances(tokens: seq<string>, index: nat)
    requires index <= |tokens|
    ensures EnvPosition(tokens, index).At? ==> EnvPosition(tokens, index).index >= index
  {
    hide Run;
    ParseOutcome(EnvState(tokens, index, false, 0, true));
  }

  /** The command position, peeling wrappers from index on. */
  function ResolveFrom(tokens: seq<string>, index: nat): Position
    decreases |tokens| - index
  {
    if index >= |tokens| then Nowhere
    else if Recognized(tokens, index) then At(index)
    else if Name(tokens[index]) in WRAPPERS then
      WrappedAdvances(tokens, index);
      match Wrapped(tokens, index)
      case At(next) => ResolveFrom(tokens, next)
      case other => other
    else if exists k :: index < k < |tokens| && DockerLike(tokens, k) then Failed
    else At(index)
  }

  function SkipPrefix(tokens: seq<string>, index: nat): (end: nat)
    requires index <= |tokens|
    ensures index <= end <= |tokens|
    decreases |tokens| - index
  {
    if index < |tokens| && (tokens[index] == "!" || ShellAssignment(tokens[index]))
    then SkipPrefix(tokens, index + 1) else index
  }

  function Resolve(tokens: seq<string>): Position {
    ResolveFrom(tokens, SkipPrefix(tokens, 0))
  }

  // ---- The resolver as written --------------------------------------------

  method OptionsEndPosition(tokens: seq<string>, start: nat, valueOptions: set<string>) returns (index: nat)
    ensures index == OptionsEnd(tokens, start, valueOptions)
  {
    index := start;
    while index < |tokens| && HasPrefix(tokens[index], "-")
      invariant OptionsEnd(tokens, start, valueOptions) == OptionsEnd(tokens, index, valueOptions)
      decreases |tokens| - index
    {
      var option := tokens[index];
      index := index + 1;
      if option in valueOptions {
        index := index + 1;
      }
    }
  }

  /** The option loops of `stdbuf`, `sudo` and `exec`. */
  method ReadOptionsPosition(reader: Reader, tokens: seq<string>, start: nat) returns (position: Position)
    ensures position == ReadOptions(reader, tokens, start)
  {
    hide ReadingOf;
    var index := start;
    while index < |tokens| && HasPrefix(tokens[index], "-")
      invariant ReadOptions(reader, tokens, start) == ReadOptions(reader, tokens, index)
      decreases |tokens| - index
    {
      match ReadingOf(reader, tokens[index]) {
        case Skips(n) => index := index + n;
        case Ends => return At(index + 1);
        case Refuses => return Failed;
      }
    }
    position := At(index);
  }

  method SkipWordsPosition(tokens: seq<string>, start: nat, words: set<string>) returns (index: nat)
    ensures index == SkipWords(tokens, start, words)
  {
    index := start;
    while index < |tokens| && tokens[index] in words
      invariant SkipWords(tokens, start, words) == SkipWords(tokens, index, words)
      decreases |tokens| - index
    {
      index := index + 1;
    }
  }

  method WrappedPosition(tokens: seq<string>, index: nat) returns (position: Position)
    requires index < |tokens| && Name(tokens[index]) in WRAPPERS
    ensures position == Wrapped(tokens, index)
  {
    hide Run, ReadOptions, OptionsEnd, SkipWords, Name;
    var name := Name(tokens[index]);
    if name == "exec" {
      position := ReadOptionsPosition(Exec, tokens, index + 1);
    } else if name == "sudo" {
      position := ReadOptionsPosition(Sudo, tokens, index + 1);
    } else if SkippedOptions(name).Some? {
      var end := OptionsEndPosition(tokens, index + 1, SkippedOptions(name).value);
      position := At(end);
    } else if name == "timeout" {
      var end := OptionsEndPosition(tokens, index + 1, TIMEOUT_VALUE_OPTIONS);
      position := At(end + 1);
    } else if name == "env" {
      var parse := ParseGnuEnvCommand(tokens, index);
      position := if parse.problem.Some? || parse.split then Failed
        else if parse.commandIndex.Some? then At(parse.commandIndex.value) else Nowhere;
    } else if name == "busybox" {
      position := At(index + 1);
    } else if name == "builtin" {
      var end := SkipWordsPosition(tokens, index + 1, {"--"});
      position := At(end);
    } else if name == "stdbuf" {
      position := ReadOptionsPosition(Stdbuf, tokens, index + 1);
    } else if index + 1 < |tokens| && tokens[index + 1] in {"-V", "-v"} {
      position := Nowhere;
    } else {
      var end := SkipWordsPosition(tokens, index + 1, {"--", "-p"});
      position := At(end);
    }
  }

  method ResolveCommandPosition(tokens: seq<string>) returns (position: Position)
    ensures position == Resolve(tokens)
  {
    hide Recognized, Wrapped, DockerLike, Name, ShellAssignment;
    var index := 0;
    while index < |tokens| && (tokens[index] == "!" || ShellAssignment(tokens[index]))
      invariant index <= |tokens| && SkipPrefix(tokens, 0) == SkipPrefix(tokens, index)
    {
      index := index + 1;
    }
    while index < |tokens|
      invariant Resolve(tokens) == ResolveFrom(tokens, index)
      decreases |tokens| - index
    {
      if Recognized(tokens, index) {
        return At(index);
      }
      if Name(tokens[index]) in WRAPPERS {
        WrappedAdvances(tokens, index);
        position := WrappedPosition(tokens, index);
        if !position.At? {
          return;
        }
        index := position.index;
        continue;
      }
      var candidate := index + 1;
      while candidate < |tokens|
        invariant index < candidate
        invariant forall k :: index < k < candidate && k < |tokens| ==> !DockerLike(tokens, k)
      {
        if DockerLike(tokens, candidate) {
          return Failed;
        }
        candidate := candidate + 1;
      }
      return At(index);
    }
    position := Nowhere;
  }

  // ---- What a resolved position means -------------------------------------

  /** A resolved position is a token that is no wrapper, and behind a command
      the gate does not know there is no Docker invocation left to find. */
  lemma {:induction false} ResolvedCommand(tokens: seq<string>, index: nat)
    requires ResolveFrom(tokens, index).At?
    ensures var k := ResolveFrom(tokens, index).index;
      && index <= k < |tokens| && Name(tokens[k]) !in WRAPPERS
      && (Recognized(tokens, k) || forall j :: k < j < |tokens| ==> !DockerLike(tokens, j))
    decreases |tokens| - index
  {
    hide Wrapped, DockerLike, Run, Recognized, Name;
    if index < |tokens| {
      if Recognized(tokens, index) {
        RecognizedIsNoWrapper(tokens, index);
      } else if Name(tokens[index]) in WRAPPERS {
        WrappedAdvances(tokens, index);
        ResolvedCommand(tokens, Wrapped(tokens, index).index);
      }
    }
  }

  lemma ShellVariableName(token: string)
    requires ShellVariable(token)
    ensures token != "" && Name(token) == token && token[0] == '$'
  {
    assert token == [token[0]] + token[1..];
    if Identifier(token[1..]) {
      assert '/' !in token[1..];
    } else {
      assert token[1..] == [token[1]] + token[2..|token| - 1] + [token[|token| - 1]];
    }
    assert '/' !in token;
  }

  lemma DataCommandIsNoWrapper(name: string)
    requires name in DATA_COMMANDS
    ensures name !in WRAPPERS
  {
  }

  lemma InterpreterIsNoWrapper(name: string)
    requires name in INTERPRETERS
    ensures name !in WRAPPERS
  {
  }

  lemma OtherNamesAreNoWrappers(name: string)
    requires name == "eval" || name == "docker" || name == "docker-compose" || (name != "" && name[0] == '$')
    ensures name !in WRAPPERS
  {
  }

  lemma RecognizedIsNoWrapper(tokens: seq<string>, index: nat)
    requires index < |tokens| && Recognized(tokens, index)
    ensures Name(tokens[index]) !in WRAPPERS
  {
    hide Name, ShellVariable;
    var name := Name(tokens[index]);
    if name in DATA_COMMANDS {
      DataCommandIsNoWrapper(name);
    } else if name in INTERPRETERS {
      InterpreterIsNoWrapper(name);
    } else {
      if ShellVariable(tokens[index]) { ShellVariableName(tokens[index]); }
      OtherNamesAreNoWrappers(name);
    }
  }

  // ---- Wrappers without options are transparent ---------------------------

  /** A word no wrapper takes for an option, an assignment or a negation. */
  predicate CommandWord(t: string) { '=' !in t && !HasPrefix(t, "-") && t != "!" }

  predicate BareWrapper(t: string) { Name(t) in WRAPPERS && Name(t) != "timeout" && CommandWord(t) }

  ghost function Shifted(p: Position, n: nat): Position {
    if p.At? then At(p.index + n) else p
  }

  lemma DashPrefix(t: string, prefix: string)
    requires prefix != "" && prefix[0] == '-' && HasPrefix(t, prefix)
    ensures HasPrefix(t, "-")
  {
    assert t[0] == t[..|prefix|][0];
  }

  lemma CommandWordAction(t: string)
    requires CommandWord(t)
    ensures ActionOf(t, true) == IsCommand
  {
    forall prefix | prefix in {"--", "--block-signal=", "--default-signal=", "--ignore-signal="}
      ensures !HasPrefix(t, prefix)
    {
      if HasPrefix(t, prefix) { DashPrefix(t, prefix); }
    }
    if t in NO_VALUE_LONG || t in {"-", "--", "--help", "--version"} { DashPrefix(t, t); }
    hide HasPrefix, LongAction, ShortAction;
  }

  lemma EnvFindsCommandWord(tokens: seq<string>, index: nat)
    requires index < |tokens| && CommandWord(tokens[index])
    ensures EnvPosition(tokens, index) == At(index)
  {
    hide ActionOf, Run;
    CommandWordAction(tokens[index]);
    RunCases(EnvState(tokens, index, false, 0, true));
  }

  lemma BareWrapperPeels(tokens: seq<string>, index: nat)
    requires index + 1 < |tokens| && BareWrapper(tokens[index]) && CommandWord(tokens[index + 1])
    ensures ResolveFrom(tokens, index) == ResolveFrom(tokens, index + 1)
  {
    hide Run, Name, EnvPosition;
    if Recognized(tokens, index) { RecognizedIsNoWrapper(tokens, index); }
    EnvFindsCommandWord(tokens, index + 1);
    assert !Dash(tokens, index + 1);
    assert tokens[index + 1] !in {"--", "-p", "-V", "-v"};
    assert Wrapped(tokens, index) == At(index + 1);
    hide Recognized, Wrapped;
  }

  /** Any nesting of bare wrappers moves the resolved position by exactly their number. */
  lemma BareWrappersTransparent(wrappers: seq<string>, command: seq<string>)
    requires forall w :: w in wrappers ==> BareWrapper(w)
    requires command != [] && CommandWord(command[0])
    ensures Resolve(wrappers + command) == Shifted(Resolve(command), |wrappers|)
  {
    hide ResolveFrom, BareWrapper;
    var tokens := wrappers + command;
    assert CommandWord(tokens[0]) by {
      if wrappers != [] { BareIsCommandWord(wrappers, 0); }
    }
    PeelAll(wrappers, command, 0);
    ResolveShift(wrappers, command, 0);
  }

  lemma BareIsCommandWord(wrappers: seq<string>, k: nat)
    requires (forall w :: w in wrappers ==> BareWrapper(w)) && k < |wrappers|
    ensures BareWrapper(wrappers[k]) && CommandWord(wrappers[k])
  {
    hide Name;
    assert wrappers[k] in wrappers;
  }

  lemma {:induction false} PeelAll(wrappers: seq<string>, command: seq<string>, k: nat)
    requires forall w :: w in wrappers ==> BareWrapper(w)
    requires command != [] && CommandWord(command[0]) && k <= |wrappers|
    ensures ResolveFrom(wrappers + command, k) == ResolveFrom(wrappers + command, |wrappers|)
    decreases |wrappers| - k
  {
    hide ResolveFrom, BareWrapper, CommandWord;
    if k < |wrappers| {
      BareIsCommandWord(wrappers, k);
      if k + 1 < |wrappers| { BareIsCommandWord(wrappers, k + 1); }
      BareWrapperPeels(wrappers + command, k);
      PeelAll(wrappers, command, k + 1);
    }
  }

  // ---- Resolution does not depend on what stands before -------------------

  /** `env` without splices, read directly off the tokens. */
  ghost function EnvScan(tokens: seq<string>, index: nat, optionsAllowed: bool): Position
    decreases |tokens| - index
  {
    if index >= |tokens| then Nowhere
    else
      match ActionOf(tokens[index], optionsAllowed)
      case Ignore => EnvScan(tokens, index + 1, optionsAllowed)
      case EndOptions => EnvScan(tokens, index + 1, false)
      case IsCommand => At(index)
      case ShowHelp => Nowhere
      case Unsupported => Failed
      case NeedsValue(splits, attached) =>
        if splits then Failed
        else if attached.Some? then EnvScan(tokens, index + 1, optionsAllowed)
        else if index + 1 < |tokens| then EnvScan(tokens, index + 2, optionsAllowed)
        else Failed
  }

  ghost function Outcome(parse: Parse): Position {
    if parse.problem.Some? || parse.split then Failed
    else if parse.commandIndex.Some? then At(parse.commandIndex.value)
    else Nowhere
  }

  lemma {:induction false} SplitSticks(s: EnvState)
    requires s.splitUsed
    ensures Run(s).split
    decreases MAX_EXPANSIONS + 1 - s.expansions, |s.normalized| - s.index
  {
    hide Step, Run;
    if s.index < |s.normalized| {
      RunCases(s);
      StepDescends(s);
      StepKeepsSplit(s);
      match Step(s)
      case Done(_) =>
      case Go(next) => SplitSticks(next);
    } else {
      RunAtEnd(s);
    }
  }

  lemma StepKeepsSplit(s: EnvState)
    requires s.index < |s.normalized| && s.splitUsed
    ensures match Step(s) case Done(parse) => parse.split case Go(next) => next.splitUsed
  {
    hide ActionOf;
  }

  lemma {:induction false} EnvScanFinds(s: EnvState)
    requires !s.splitUsed
    ensures Outcome(Run(s)) == EnvScan(s.normalized, s.index, s.optionsAllowed)
    decreases |s.normalized| - s.index
  {
    hide Run, ActionOf;
    if s.index < |s.normalized| {
      RunCases(s);
      match Step(s)
      case Done(parse) =>
      case Go(next) =>
        if next.splitUsed { SplitSticks(next); } else { EnvScanFinds(next); }
    } else {
      RunAtEnd(s);
    }
  }

  lemma {:induction false} EnvScanShift(before: seq<string>, tokens: seq<string>, index: nat, optionsAllowed: bool)
    ensures EnvScan(before + tokens, |before| + index, optionsAllowed)
         == Shifted(EnvScan(tokens, index, optionsAllowed), |before|)
    decreases |tokens| - index
  {
    hide ActionOf;
    if index < |tokens| {
      assert (before + tokens)[|before| + index] == tokens[index];
      EnvScanShift(before, tokens, index + 1, optionsAllowed);
      EnvScanShift(before, tokens, index + 1, false);
      EnvScanShift(before, tokens, index + 2, optionsAllowed);
    }
  }

  lemma EnvPositionShift(before: seq<string>, tokens: seq<string>, index: nat)
    ensures EnvPosition(before + tokens, |before| + index) == Shifted(EnvPosition(tokens, index), |before|)
  {
    hide Run, EnvScan;
    EnvScanFinds(EnvState(tokens, index, false, 0, true));
    EnvScanFinds(EnvState(before + tokens, |before| + index, false, 0, true));
    EnvScanShift(before, tokens, index, true);
  }

  lemma {:induction false} OptionsEndShift(before: seq<string>, tokens: seq<string>, index: nat, options: set<string>)
    ensures OptionsEnd(before + tokens, |before| + index, options) == |before| + OptionsEnd(tokens, index, options)
    decreases |tokens| - index
  {
    if Dash(tokens, index) {
      OptionsEndShift(before, tokens, index + (if tokens[index] in options then 2 else 1), options);
    }
  }

  lemma {:induction false} ReadOptionsShift(reader: Reader, before: seq<string>, tokens: seq<string>, index: nat)
    ensures ReadOptions(reader, before + tokens, |before| + index)
         == Shifted(ReadOptions(reader, tokens, index), |before|)
    decreases |tokens| - index
  {
    hide ReadingOf;
    if Dash(tokens, index) {
      match ReadingOf(reader, tokens[index])
      case Skips(n) => ReadOptionsShift(reader, before, tokens, index + n);
      case _ =>
    }
  }

  lemma {:induction false} SkipWordsShift(before: seq<string>, tokens: seq<string>, index: nat, words: set<string>)
    ensures SkipWords(before + tokens, |before| + index, words) == |before| + SkipWords(tokens, index, words)
    decreases |tokens| - index
  {
    if index < |tokens| && tokens[index] in words {
      SkipWordsShift(before, tokens, index + 1, words);
    }
  }

  lemma WrappedShift(before: seq<string>, tokens: seq<string>, index: nat)
    requires index < |tokens| && Name(tokens[index]) in WRAPPERS
    ensures Wrapped(before + tokens, |before| + index) == Shifted(Wrapped(tokens, index), |before|)
  {
    hide Name, OptionsEnd, ReadOptions, EnvPosition, CommandBuiltin, SkippedOptions, SkipWords;
    var name := Name(tokens[index]);
    assert (before + tokens)[|before| + index] == tokens[index];
    EnvPositionShift(before, tokens, index + 1);
    if SkippedOptions(name).Some? { OptionsEndShift(before, tokens, index + 1, SkippedOptions(name).value); }
    OptionsEndShift(before, tokens, index + 1, TIMEOUT_VALUE_OPTIONS);
    ReadOptionsShift(Exec, before, tokens, index + 1);
    ReadOptionsShift(Sudo, before, tokens, index + 1);
    ReadOptionsShift(Stdbuf, before, tokens, index + 1);
    SkipWordsShift(before, tokens, index + 1, {"--"});
    CommandBuiltinShift(before, tokens, index + 1);
  }

  lemma CommandBuiltinShift(before: seq<string>, tokens: seq<string>, index: nat)
    ensures CommandBuiltin(before + tokens, |before| + index) == Shifted(CommandBuiltin(tokens, index), |before|)
  {
    hide SkipWords;
    SkipWordsShift(before, tokens, index, {"--", "-p"});
  }

  lemma RecognizedShift(before: seq<string>, tokens: seq<string>, index: nat)
    requires index < |tokens|
    ensures Recognized(before + tokens, |before| + index) <==> Recognized(tokens, index)
  {
    hide Name, ShellVariable;
    assert (before + tokens)[|before| + index] == tokens[index];
    assert index + 1 < |tokens| ==> (before + tokens)[|before| + index + 1] == tokens[index + 1];
  }

  lemma {:induction false} ResolveShift(before: seq<string>, tokens: seq<string>, index: nat)
    ensures ResolveFrom(before + tokens, |before| + index) == Shifted(ResolveFrom(tokens, index), |before|)
    decreases |tokens| - index
  {
    hide Wrapped, Recognized, Name, DockerLike;
    if index < |tokens| {
      assert (before + tokens)[|before| + index] == tokens[index];
      RecognizedShift(before, tokens, index);
      if Recognized(tokens, index) {
      } else if Name(tokens[index]) in WRAPPERS {
        WrappedShift(before, tokens, index);
        WrappedAdvances(tokens, index);
        if Wrapped(tokens, index).At? { ResolveShift(before, tokens, Wrapped(tokens, index).index); }
      } else {
        DockerLikeShift(before, tokens, index);
      }
    }
  }

  lemma DockerLikeShift(before: seq<string>, tokens: seq<string>, index: nat)
    ensures (exists k :: |before| + index < k < |before + tokens| && DockerLike(before + tokens, k))
       <==> (exists k :: index < k < |tokens| && DockerLike(tokens, k))
  {
    hide Name, ShellVariable;
    var whole := before + tokens;
    forall k | 0 <= k < |tokens| ensures DockerLike(whole, |before| + k) <==> DockerLike(tokens, k) {
      assert whole[|before| + k] == tokens[k];
      assert k + 1 < |tokens| ==> whole[|before| + k + 1] == tokens[k + 1];
    }
    if k :| index < k < |tokens| && DockerLike(tokens, k) {
      assert DockerLike(whole, |before| + k);
    }
    if k :| |before| + index < k < |whole| && DockerLike(whole, k) {
      assert DockerLike(whole, |before| + (k - |before|));
      assert DockerLike(tokens, k - |before|);
    }
  }
}
