/** A grammar of command lines behind wrappers, with the arity of every option in
    the grammar itself, and where the resolver finds the command in what it prints. */
module WrapperGrammar {
  import opened Wrappers
  import EnvGrammar
  import EnvCommand
  import opened WrapperResolution

  // ---- Options with a value -----------------------------------------------

  /** An option that takes a value, in its short spelling (none when empty) and its long one. */
  datatype Valued = Valued(short: string, long: string)

  datatype Tool = NiceTool | NohupTool | SetsidTool | TimeTool | XargsTool | TimeoutTool | SudoTool | StdbufTool

  function ToolName(tool: Tool): string {
    match tool
    case NiceTool => "nice"
    case NohupTool => "nohup"
    case SetsidTool => "setsid"
    case TimeTool => "time"
    case XargsTool => "xargs"
    case TimeoutTool => "timeout"
    case SudoTool => "sudo"
    case StdbufTool => "stdbuf"
  }

  /** Every option of the tool that takes a value. */
  function ValueOptions(tool: Tool): seq<Valued> {
    match tool
    case NiceTool => [Valued("-n", "--adjustment")]
    case NohupTool => []
    case SetsidTool => []
    case TimeTool => [Valued("-f", "--format"), Valued("-o", "--output")]
    case XargsTool => [
        Valued("-a", "--arg-file"), Valued("-E", "--eof"), Valued("-d", "--delimiter"), Valued("-I", "--replace"),
        Valued("-L", "--max-lines"), Valued("-n", "--max-args"), Valued("-P", "--max-procs"), Valued("-s", "--max-chars"),
        Valued("", "--process-slot-var")]
    case TimeoutTool => [Valued("-k", "--kill-after"), Valued("-s", "--signal")]
    case SudoTool => [
        Valued("-C", "--close-from"), Valued("-D", "--chdir"), Valued("-g", "--group"), Valued("-h", "--host"),
        Valued("-p", "--prompt"), Valued("-R", "--chroot"), Valued("-r", "--role"), Valued("-t", "--type"),
        Valued("-T", "--command-timeout"), Valued("-u", "--user")]
    case StdbufTool => [Valued("-i", "--input"), Valued("-o", "--output"), Valued("-e", "--error")]
  }

  /** One use of an option: without a value, with it in the next word, or in the same one. */
  datatype Use = Alone(word: string) | Separate(option: Valued, long: bool, value: string) | Attached(option: Valued, long: bool, value: string)

  function Spelled(option: Valued, long: bool): string { if long then option.long else option.short }

  function Head(u: Use): string {
    match u
    case Alone(word) => word
    case Separate(option, long, _) => Spelled(option, long)
    case Attached(option, long, value) => if long then option.long + "=" + value else option.short + value
  }

  function PrintUse(u: Use): seq<string> {
    [Head(u)] + if u.Separate? then [u.value] else []
  }

  function PrintUses(uses: seq<Use>): seq<string> {
    if uses == [] then [] else PrintUse(uses[0]) + PrintUses(uses[1..])
  }

  /** `stdbuf` has no option without a value, and no line break in a short attached one
      unless an equals sign sets it off. */
  predicate UseOk(tool: Tool, u: Use) {
    match u
    case Alone(word) =>
      && tool != StdbufTool && word != "" && word[0] == '-' && word != "--"
      && forall o :: o in ValueOptions(tool) ==> word != o.short && word != o.long
    case Separate(option, long, _) => option in ValueOptions(tool) && Spelled(option, long) != ""
    case Attached(option, long, value) =>
      && option in ValueOptions(tool)
      && (!long ==> option.short != "" && value != "" && (tool == StdbufTool ==> '\n' !in value || value[0] == '='))
  }

  /** The words the resolver knows to take a value. */
  function KnownWords(tool: Tool): set<string> {
    match tool
    case TimeoutTool => TIMEOUT_VALUE_OPTIONS
    case SudoTool => SUDO_VALUE_OPTIONS
    case StdbufTool => STDBUF_VALUE_OPTIONS
    case _ => var known := SkippedOptions(ToolName(tool)); if known.Some? then known.value else {}
  }

  ghost predicate TakesValue(tool: Tool, word: string) {
    exists o :: o in ValueOptions(tool) && word != "" && (word == o.short || word == o.long)
  }

  lemma OptionTaken(tool: Tool, i: nat)
    requires i < |ValueOptions(tool)|
    ensures var o := ValueOptions(tool)[i]; (o.short != "" ==> TakesValue(tool, o.short)) && (o.long != "" ==> TakesValue(tool, o.long))
  {
    assert ValueOptions(tool)[i] in ValueOptions(tool);
  }

  /** The words the resolver knows are those the grammar gives a value to. */
  lemma KnownWordsExact(tool: Tool, word: string)
    ensures word in KnownWords(tool) <==> TakesValue(tool, word)
  {
    if word in KnownWords(tool) { KnownIsTaken(tool, word); }
    if TakesValue(tool, word) {
      hide KnownWords, ValueOptions;
      var o :| o in ValueOptions(tool) && word != "" && (word == o.short || word == o.long);
      var i :| 0 <= i < |ValueOptions(tool)| && ValueOptions(tool)[i] == o;
      TakenIsKnown(tool, i);
    }
  }

  lemma TakenIsKnown(tool: Tool, i: nat)
    requires i < |ValueOptions(tool)|
    ensures var o := ValueOptions(tool)[i]; (o.short == "" || o.short in KnownWords(tool)) && o.long in KnownWords(tool)
  {
    match tool
    case XargsTool =>
    case SudoTool =>
    case _ =>
  }

  lemma KnownIsTaken(tool: Tool, word: string)
    requires word in KnownWords(tool)
    ensures TakesValue(tool, word)
  {
    match tool
    case XargsTool => XargsTaken(word);
    case SudoTool => SudoTaken(word);
    case NiceTool => OptionTaken(tool, 0);
    case TimeTool => TimeTaken(word);
    case TimeoutTool => TimeoutTaken(word);
    case StdbufTool => StdbufTaken(word);
  }

  lemma TimeTaken(word: string)
    requires word in KnownWords(TimeTool)
    ensures TakesValue(TimeTool, word)
  {
    hide TakesValue;
    OptionTaken(TimeTool, 0);
    OptionTaken(TimeTool, 1);
  }

  lemma TimeoutTaken(word: string)
    requires word in KnownWords(TimeoutTool)
    ensures TakesValue(TimeoutTool, word)
  {
    hide TakesValue;
    OptionTaken(TimeoutTool, 0);
    OptionTaken(TimeoutTool, 1);
  }

  lemma StdbufTaken(word: string)
    requires word in KnownWords(StdbufTool)
    ensures TakesValue(StdbufTool, word)
  {
    hide TakesValue;
    OptionTaken(StdbufTool, 0);
    OptionTaken(StdbufTool, 1);
    OptionTaken(StdbufTool, 2);
  }

  lemma XargsTaken(word: string)
    requires word in KnownWords(XargsTool)
    ensures TakesValue(XargsTool, word)
  {
    hide TakesValue;
    if word == "-a" || word == "--arg-file" {
      OptionTaken(XargsTool, 0);
    } else if word == "-E" || word == "--eof" {
      OptionTaken(XargsTool, 1);
    } else if word == "-d" || word == "--delimiter" {
      OptionTaken(XargsTool, 2);
    } else if word == "-I" || word == "--replace" {
      OptionTaken(XargsTool, 3);
    } else if word == "-L" || word == "--max-lines" {
      OptionTaken(XargsTool, 4);
    } else if word == "-n" || word == "--max-args" {
      OptionTaken(XargsTool, 5);
    } else if word == "-P" || word == "--max-procs" {
      OptionTaken(XargsTool, 6);
    } else if word == "-s" || word == "--max-chars" {
      OptionTaken(XargsTool, 7);
    } else if word == "--process-slot-var" {
      OptionTaken(XargsTool, 8);
    }
  }

  lemma SudoTaken(word: string)
    requires word in KnownWords(SudoTool)
    ensures TakesValue(SudoTool, word)
  {
    hide TakesValue;
    if word == "-C" || word == "--close-from" {
      OptionTaken(SudoTool, 0);
    } else if word == "-D" || word == "--chdir" {
      OptionTaken(SudoTool, 1);
    } else if word == "-g" || word == "--group" {
      OptionTaken(SudoTool, 2);
    } else if word == "-h" || word == "--host" {
      OptionTaken(SudoTool, 3);
    } else if word == "-p" || word == "--prompt" {
      OptionTaken(SudoTool, 4);
    } else {
      MoreSudoTaken(word);
    }
  }

  lemma MoreSudoTaken(word: string)
    requires word in {
      "-R", "--chroot", "-r", "--role", "-t", "--type", "-T", "--command-timeout", "-u", "--user"
    }
    ensures TakesValue(SudoTool, word)
  {
    hide TakesValue;
    if word == "-R" || word == "--chroot" {
      OptionTaken(SudoTool, 5);
    } else if word == "-r" || word == "--role" {
      OptionTaken(SudoTool, 6);
    } else if word == "-t" || word == "--type" {
      OptionTaken(SudoTool, 7);
    } else if word == "-T" || word == "--command-timeout" {
      OptionTaken(SudoTool, 8);
    } else {
      OptionTaken(SudoTool, 9);
    }
  }

  predicate WellSpelled(tool: Tool, o: Valued) {
    && (o.short != "" ==> |o.short| == 2 && o.short[0] == '-' && o.short[1] != '-')
    && |o.long| > 2 && o.long[0] == '-' && o.long[1] == '-' && '=' !in o.long
    && (tool == StdbufTool ==> o.short != "" && o.short[1..] != "" && o.short[1] in "eio" && '=' !in o.short)
  }

  /** How the spellings look. */
  lemma Spellings(tool: Tool, o: Valued)
    requires o in ValueOptions(tool)
    ensures WellSpelled(tool, o)
  {
    var i :| 0 <= i < |ValueOptions(tool)| && ValueOptions(tool)[i] == o;
    SpelledAt(tool, i);
  }

  lemma SpelledAt(tool: Tool, i: nat)
    requires i < |ValueOptions(tool)|
    ensures WellSpelled(tool, ValueOptions(tool)[i])
  {
    match tool
    case XargsTool => SpelledXargs(i);
    case SudoTool => SpelledSudo(i);
    case _ =>
  }

  lemma SpelledXargs(i: nat)
    requires i < |ValueOptions(XargsTool)|
    ensures WellSpelled(XargsTool, ValueOptions(XargsTool)[i])
  {
  }

  lemma SpelledSudo(i: nat)
    requires i < |ValueOptions(SudoTool)|
    ensures WellSpelled(SudoTool, ValueOptions(SudoTool)[i])
  {
  }

  /** A value attached to an option makes a word that takes none itself. */
  lemma AttachedTakesNone(tool: Tool, u: Use)
    requires u.Attached? && UseOk(tool, u)
    ensures Head(u) != "" && Head(u)[0] == '-' && Head(u) != "--" && !TakesValue(tool, Head(u))
  {
    hide ValueOptions;
    Spellings(tool, u.option);
    var w := Head(u);
    forall o | o in ValueOptions(tool) ensures w != o.short && w != o.long {
      Spellings(tool, o);
      if u.long { assert w[|u.option.long|] == '='; }
    }
  }

  lemma SeparateTakes(tool: Tool, u: Use)
    requires u.Separate? && UseOk(tool, u)
    ensures Head(u) != "" && Head(u)[0] == '-' && Head(u) != "--" && TakesValue(tool, Head(u))
  {
    hide ValueOptions;
    Spellings(tool, u.option);
  }

  /** The first word of a use starts with a dash, and is known to take a value exactly when it stands in the next word. */
  lemma UseReads(tool: Tool, u: Use)
    requires UseOk(tool, u)
    ensures Head(u) != "" && Head(u)[0] == '-' && Head(u) != "--"
    ensures Head(u) in KnownWords(tool) <==> u.Separate?
  {
    hide ValueOptions, KnownWords;
    KnownWordsExact(tool, Head(u));
    match u
    case Alone(_) =>
    case Separate(_, _, _) => SeparateTakes(tool, u);
    case Attached(_, _, _) => AttachedTakesNone(tool, u);
  }

  // ---- Reading printed options --------------------------------------------

  /** The tokens from the index on. */
  predicate Remains(tokens: seq<string>, index: nat, text: seq<string>) {
    index <= |tokens| && tokens[index..] == text
  }

  lemma RemainsAt(tokens: seq<string>, index: nat, head: string, rest: seq<string>)
    requires Remains(tokens, index, [head] + rest)
    ensures index < |tokens| && tokens[index] == head && Remains(tokens, index + 1, rest)
  {
    assert tokens[index..][0] == head;
    assert tokens[index + 1..] == tokens[index..][1..];
  }

  lemma RemainsBehind(tokens: seq<string>, index: nat, head: seq<string>, rest: seq<string>)
    requires Remains(tokens, index, head + rest)
    ensures Remains(tokens, index + |head|, rest)
  {
    assert tokens[index + |head|..] == tokens[index..][|head|..];
  }

  lemma DashIs(s: string)
    ensures EnvCommand.HasPrefix(s, "-") <==> s != "" && s[0] == '-'
  {
    if s != "" { assert s[..1] == [s[0]]; }
  }

  lemma DashAt(tokens: seq<string>, index: nat, head: string, rest: seq<string>)
    requires Remains(tokens, index, [head] + rest) && head != "" && head[0] == '-'
    ensures Dash(tokens, index) && index < |tokens| && tokens[index] == head
  {
    RemainsAt(tokens, index, head, rest);
    DashIs(head);
  }

  lemma UsesFirst(uses: seq<Use>, rest: seq<string>)
    requires uses != []
    ensures PrintUses(uses) + rest == PrintUse(uses[0]) + (PrintUses(uses[1..]) + rest)
    ensures PrintUse(uses[0]) + (PrintUses(uses[1..]) + rest) == [Head(uses[0])] + (PrintUse(uses[0])[1..] + (PrintUses(uses[1..]) + rest))
  {
    hide PrintUse;
    var first, tail := PrintUse(uses[0]), PrintUses(uses[1..]);
    Regroup(first, tail, rest);
    HeadFirst(uses[0]);
    Regroup([Head(uses[0])], first[1..], tail + rest);
  }

  lemma HeadFirst(u: Use)
    ensures PrintUse(u) != [] && PrintUse(u) == [Head(u)] + PrintUse(u)[1..]
  {
    hide Head;
  }

  lemma Regroup(a: seq<string>, b: seq<string>, c: seq<string>)
    ensures (a + b) + c == a + (b + c)
  {
  }

  ghost predicate UsesOk(tool: Tool, uses: seq<Use>) {
    forall i :: 0 <= i < |uses| ==> UseOk(tool, uses[i])
  }

  lemma UsesTail(tool: Tool, uses: seq<Use>)
    requires UsesOk(tool, uses) && uses != []
    ensures UseOk(tool, uses[0]) && UsesOk(tool, uses[1..])
  {
    hide UseOk;
  }

  /** The option loop passes over every use, with the value where there is one. */
  lemma {:induction false} OptionsEndUses(tool: Tool, tokens: seq<string>, index: nat, uses: seq<Use>, rest: seq<string>)
    requires UsesOk(tool, uses) && Remains(tokens, index, PrintUses(uses) + rest)
    ensures var end := index + |PrintUses(uses)|;
      Remains(tokens, end, rest) && OptionsEnd(tokens, index, KnownWords(tool)) == OptionsEnd(tokens, end, KnownWords(tool))
    decreases |uses|
  {
    hide UsesOk, UseOk, KnownWords, Head, Remains;
    if uses == [] {
      assert PrintUses(uses) + rest == rest;
    } else {
      var u := uses[0];
      UsesTail(tool, uses);
      UseReads(tool, u);
      UsesFirst(uses, rest);
      DashAt(tokens, index, Head(u), PrintUse(u)[1..] + (PrintUses(uses[1..]) + rest));
      RemainsBehind(tokens, index, PrintUse(u), PrintUses(uses[1..]) + rest);
      OptionsEndUses(tool, tokens, index + |PrintUse(u)|, uses[1..], rest);
    }
  }

  lemma SudoUse(u: Use)
    requires UseOk(SudoTool, u)
    ensures ReadingOf(Sudo, Head(u)) == Skips(|PrintUse(u)|)
  {
    UseReads(SudoTool, u);
  }

  lemma StdbufUse(u: Use)
    requires UseOk(StdbufTool, u)
    ensures ReadingOf(Stdbuf, Head(u)) == Skips(|PrintUse(u)|)
  {
    UseReads(StdbufTool, u);
    if u.Attached? { StdbufAttached(u); }
  }

  lemma StdbufAttached(u: Use)
    requires UseOk(StdbufTool, u) && u.Attached?
    ensures StdbufReading(Head(u)) == Skips(1)
  {
    UseReads(StdbufTool, u);
    Spellings(StdbufTool, u.option);
    hide ValueOptions;
    var w := Head(u);
    if u.long {
      EnvGrammar.FirstIsAt(u.option.long, u.value, '=');
      assert w[..|u.option.long|] == u.option.long && w[|u.option.long|] == '=';
      KnownWordsExact(StdbufTool, u.option.long);
    } else {
      assert w[1] == u.option.short[1] && w[2..] == u.value && w[..2] == u.option.short;
      if u.value[0] == '=' {
        assert w == u.option.short + "=" + u.value[1..];
        assert '=' !in u.option.short;
        EnvGrammar.FirstIsAt(u.option.short, u.value[1..], '=');
        KnownWordsExact(StdbufTool, u.option.short);
      }
    }
  }

  function ReaderTool(reader: Reader): Tool { if reader == Stdbuf then StdbufTool else SudoTool }

  lemma ReaderUse(reader: Reader, u: Use)
    requires reader != Exec && UseOk(ReaderTool(reader), u)
    ensures ReadingOf(reader, Head(u)) == Skips(|PrintUse(u)|)
  {
    hide UseOk, ReadingOf;
    if reader == Sudo { SudoUse(u); } else { StdbufUse(u); }
  }

  lemma {:induction false} ReadUses(reader: Reader, tokens: seq<string>, index: nat, uses: seq<Use>, rest: seq<string>)
    requires reader != Exec && UsesOk(ReaderTool(reader), uses) && Remains(tokens, index, PrintUses(uses) + rest)
    ensures var end := index + |PrintUses(uses)|;
      Remains(tokens, end, rest) && ReadOptions(reader, tokens, index) == ReadOptions(reader, tokens, end)
    decreases |uses|
  {
    hide UsesOk, UseOk, Head, Remains, ReadingOf;
    if uses == [] {
      assert PrintUses(uses) + rest == rest;
    } else {
      var u := uses[0];
      UsesTail(ReaderTool(reader), uses);
      UseReads(ReaderTool(reader), u);
      ReaderUse(reader, u);
      UsesFirst(uses, rest);
      DashAt(tokens, index, Head(u), PrintUse(u)[1..] + (PrintUses(uses[1..]) + rest));
      RemainsBehind(tokens, index, PrintUse(u), PrintUses(uses[1..]) + rest);
      ReadUses(reader, tokens, index + |PrintUse(u)|, uses[1..], rest);
    }
  }

  // ---- exec ---------------------------------------------------------------

  /** -c, -l and -a; as the script reads clusters, an -a anywhere in one takes the next word. */
  datatype ExecFlag = Clear | Login | Renamed

  datatype ExecUse = Clustered(flags: seq<ExecFlag>, name: string) | LongNamed(attached: bool, name: string)

  function ExecLetter(f: ExecFlag): char {
    match f
    case Clear => 'c'
    case Login => 'l'
    case Renamed => 'a'
  }

  function ExecLetters(flags: seq<ExecFlag>): string {
    if flags == [] then "" else [ExecLetter(flags[0])] + ExecLetters(flags[1..])
  }

  function ExecHead(u: ExecUse): string {
    match u
    case Clustered(flags, _) => "-" + ExecLetters(flags)
    case LongNamed(attached, name) => if attached then "--argv0=" + name else "--argv0"
  }

  function PrintExecUse(u: ExecUse): seq<string> {
    [ExecHead(u)] + if (if u.Clustered? then Renamed in u.flags else !u.attached) then [u.name] else []
  }

  function PrintExecUses(uses: seq<ExecUse>): seq<string> {
    if uses == [] then [] else PrintExecUse(uses[0]) + PrintExecUses(uses[1..])
  }

  lemma {:induction false} ExecLettersAre(flags: seq<ExecFlag>)
    ensures forall c :: c in ExecLetters(flags) ==> c in "acl"
    ensures 'a' in ExecLetters(flags) <==> Renamed in flags
    decreases |flags|
  {
    if flags != [] {
      ExecLettersAre(flags[1..]);
      assert flags == [flags[0]] + flags[1..];
    }
  }

  lemma ExecCluster(text: string, letters: string)
    requires letters == "acl" || letters == "cl"
    ensures var w := "-" + text; w[1..] == text && (Cluster(w, letters) <==> forall c :: c in text ==> c in letters)
  {
    var w := "-" + text;
    assert w[1..] == text;
    EnvGrammar.Dashes(w);
    assert |w| > 1 ==> w[1] == text[0] && text[0] in text;
  }

  lemma NotLong(w: string)
    requires |w| > 1 ==> w[1] != '-'
    ensures w != "--" && w != "--argv0" && !EnvCommand.HasPrefix(w, "--argv0=")
  {
    EnvGrammar.PrefixAt(w, "--argv0=", 1);
    assert "--argv0"[1] == '-' && "--"[1] == '-';
  }

  lemma ExecUseReads(u: ExecUse)
    ensures ExecReading(ExecHead(u)) == Skips(|PrintExecUse(u)|) && ExecHead(u) != "" && ExecHead(u)[0] == '-'
  {
    match u
    case Clustered(flags, _) => ClusteredReads(flags);
    case LongNamed(attached, name) =>
      if attached { assert ("--argv0=" + name)[..8] == "--argv0="; } else { EnvGrammar.PrefixAt("--argv0", "--argv0=", 7); }
  }

  lemma ClusteredReads(flags: seq<ExecFlag>)
    ensures ExecReading("-" + ExecLetters(flags)) == Skips(if Renamed in flags then 2 else 1)
  {
    var text := ExecLetters(flags);
    var w := "-" + text;
    ExecLettersAre(flags);
    ExecCluster(text, "cl");
    ExecCluster(text, "acl");
    assert |w| > 1 ==> w[1] == text[0] && text[0] in text && text[0] != '-';
    NotLong(w);
    forall c | c in text && Renamed !in flags ensures c in "cl" {}
    hide Cluster, ExecLetters;
  }

  lemma {:induction false} ExecUsesRead(tokens: seq<string>, index: nat, uses: seq<ExecUse>, rest: seq<string>)
    requires Remains(tokens, index, PrintExecUses(uses) + rest)
    ensures var end := index + |PrintExecUses(uses)|;
      Remains(tokens, end, rest) && ReadOptions(Exec, tokens, index) == ReadOptions(Exec, tokens, end)
    decreases |uses|
  {
    hide ExecHead, Remains, ExecReading;
    if uses == [] {
      assert PrintExecUses(uses) + rest == rest;
    } else {
      var u := uses[0];
      ExecUseReads(u);
      var more := PrintExecUses(uses[1..]) + rest;
      assert PrintExecUses(uses) + rest == PrintExecUse(u) + more;
      assert PrintExecUse(u) + more == [ExecHead(u)] + (PrintExecUse(u)[1..] + more);
      DashAt(tokens, index, ExecHead(u), PrintExecUse(u)[1..] + more);
      RemainsBehind(tokens, index, PrintExecUse(u), more);
      ExecUsesRead(tokens, index + |PrintExecUse(u)|, uses[1..], rest);
    }
  }

  // ---- Wrapper invocations ------------------------------------------------

  /** `builtin` may have separators and `command` separators and -p in any number. */
  datatype Form =
    | Optioned(tool: Tool, uses: seq<Use>, ended: bool)
    | Timed(limits: seq<Use>, ended: bool, duration: string)
    | Executed(names: seq<ExecUse>, ended: bool)
    | Environment(args: seq<EnvGrammar.Arg>, ending: EnvGrammar.Ending)
    | Busybox
    | Builtin(separators: nat)
    | Command(paths: seq<bool>)

  /** A wrapper, named by any path, and what belongs to it. */
  datatype Wrapper = Wrapper(word: string, form: Form)

  function FormName(form: Form): string {
    match form
    case Optioned(tool, _, _) => ToolName(tool)
    case Timed(_, _, _) => "timeout"
    case Executed(_, _) => "exec"
    case Environment(_, _) => "env"
    case Busybox => "busybox"
    case Builtin(_) => "builtin"
    case Command(_) => "command"
  }

  function Separator(ended: bool): seq<string> { if ended then ["--"] else [] }

  function PrintForm(form: Form): seq<string> {
    match form
    case Optioned(_, uses, ended) => PrintUses(uses) + Separator(ended)
    case Timed(limits, ended, duration) => PrintUses(limits) + Separator(ended) + [duration]
    case Executed(names, ended) => PrintExecUses(names) + Separator(ended)
    case Environment(args, ending) => EnvGrammar.PrintAll(args) + EnvGrammar.PrintEnding(ending)
    case Busybox => []
    case Builtin(separators) => seq(separators, i => "--")
    case Command(paths) => seq(|paths|, i requires 0 <= i < |paths| => if paths[i] then "-p" else "--")
  }

  function Print(w: Wrapper): seq<string> { [w.word] + PrintForm(w.form) }

  ghost predicate FormOk(form: Form) {
    match form
    case Optioned(tool, uses, _) => tool != TimeoutTool && UsesOk(tool, uses)
    case Timed(limits, _, duration) => UsesOk(TimeoutTool, limits) && (duration == "" || duration[0] != '-')
    case Environment(args, ending) => EnvGrammar.ArgsOk(args) && EnvGrammar.Splices(args) == 0 && EnvGrammar.EndingOk(ending)
    case _ => true
  }

  ghost predicate WrapperOk(w: Wrapper) {
    CommandWord(w.word) && Name(w.word) == FormName(w.form) && FormOk(w.form)
  }

  // ---- The command behind one wrapper -------------------------------------

  lemma NoDash(tokens: seq<string>, index: nat, rest: seq<string>)
    requires Remains(tokens, index, rest) && rest != [] && (rest[0] == "" || rest[0][0] != '-')
    ensures index < |tokens| && tokens[index] == rest[0] && !Dash(tokens, index)
  {
    RemainsAt(tokens, index, rest[0], rest[1..]) by { assert rest == [rest[0]] + rest[1..]; }
    DashIs(rest[0]);
  }

  lemma CommandNoDash(word: string)
    requires CommandWord(word)
    ensures word == "" || word[0] != '-'
  {
    DashIs(word);
  }

  lemma SeparatorUnknown(tool: Tool)
    ensures "--" !in KnownWords(tool)
  {
    hide ValueOptions;
    KnownWordsExact(tool, "--");
    forall o | o in ValueOptions(tool) ensures "--" != o.short && "--" != o.long { Spellings(tool, o); }
  }

  lemma OptionsStop(tool: Tool, tokens: seq<string>, index: nat, uses: seq<Use>, ended: bool, rest: seq<string>)
    requires UsesOk(tool, uses) && Remains(tokens, index, PrintUses(uses) + Separator(ended) + rest)
    requires rest != [] && (rest[0] == "" || rest[0][0] != '-')
    ensures OptionsEnd(tokens, index, KnownWords(tool)) == index + |PrintUses(uses) + Separator(ended)|
    ensures Remains(tokens, index + |PrintUses(uses) + Separator(ended)|, rest)
  {
    hide UsesOk, KnownWords, PrintUses, Remains;
    var end := index + |PrintUses(uses)|;
    assert PrintUses(uses) + Separator(ended) + rest == PrintUses(uses) + (Separator(ended) + rest);
    OptionsEndUses(tool, tokens, index, uses, Separator(ended) + rest);
    if ended {
      SeparatorUnknown(tool);
      DashAt(tokens, end, "--", rest);
      RemainsBehind(tokens, end, ["--"], rest);
      NoDash(tokens, end + 1, rest);
    } else {
      assert Separator(ended) + rest == rest;
      NoDash(tokens, end, rest);
    }
  }

  lemma ReaderEnds(reader: Reader)
    ensures ReadingOf(reader, "--") == Ends
  {
    if reader == Stdbuf { SeparatorUnknown(StdbufTool); }
  }

  /** Behind its options a reader stops at a separator, or at the first word without a dash. */
  lemma ReaderStops(reader: Reader, tokens: seq<string>, index: nat, ended: bool, rest: seq<string>)
    requires Remains(tokens, index, Separator(ended) + rest)
    requires rest != [] && (rest[0] == "" || rest[0][0] != '-')
    ensures ReadOptions(reader, tokens, index) == At(index + |Separator(ended)|)
  {
    hide ReadingOf, Remains;
    if ended {
      ReaderEnds(reader);
      DashAt(tokens, index, "--", rest);
    } else {
      assert Separator(ended) + rest == rest;
      NoDash(tokens, index, rest);
    }
  }

  lemma SeparatorsSkipped(tokens: seq<string>, index: nat, n: nat, words: set<string>, text: seq<string>, rest: seq<string>)
    requires Remains(tokens, index, text + rest) && |text| == n && forall w :: w in text ==> w in words
    requires rest != [] && rest[0] !in words
    ensures SkipWords(tokens, index, words) == index + n
    decreases n
  {
    if n > 0 {
      assert text + rest == [text[0]] + (text[1..] + rest);
      RemainsAt(tokens, index, text[0], text[1..] + rest);
      assert text[0] in text && forall w :: w in text[1..] ==> w in text;
      SeparatorsSkipped(tokens, index + 1, n - 1, words, text[1..], rest);
    } else {
      assert text + rest == [rest[0]] + rest[1..];
      RemainsAt(tokens, index, rest[0], rest[1..]);
    }
  }

  lemma EnvironmentEnds(tokens: seq<string>, form: Form, rest: seq<string>)
    requires form.Environment? && FormOk(form) && rest != [] && CommandWord(rest[0])
    requires tokens != [] && tokens == [tokens[0]] + PrintForm(form) + rest
    ensures EnvPosition(tokens, 1) == At(1 + |PrintForm(form)|)
  {
    hide EnvCommand.Run, EnvGrammar.PrintAll, EnvGrammar.PrintEnding, EnvGrammar.ArgsOk, EnvGrammar.EndingOk, EnvGrammar.Fits,
         EnvGrammar.Expanded, EnvGrammar.Splices;
    var args, e := form.args, form.ending;
    var all, end := EnvGrammar.PrintAll(args), EnvGrammar.PrintEnding(e);
    assert tokens == [tokens[0]] + (all + (end + rest));
    EnvGrammar.NothingSpliced(args, |tokens|, 0);
    EnvCommandWord(rest[0], EnvGrammar.Ended(e));
    EnvGrammar.InvocationParsed([tokens[0]], args, e, rest);
  }

  lemma EnvCommandWord(word: string, ended: bool)
    requires CommandWord(word)
    ensures EnvGrammar.CommandWord(word, ended)
  {
    CommandNoDash(word);
    forall a | EnvGrammar.SettingOk(a) ensures EnvGrammar.PrintSetting(a) != word {
      assert EnvGrammar.PrintSetting(a)[|a.name|] == '=';
    }
  }

  lemma FormNames(form: Form)
    ensures FormName(form) in WRAPPERS
  {
  }

  /** Behind a printed wrapper the command starts where the printed text ends. */
  lemma WrapperPeels(w: Wrapper, rest: seq<string>)
    requires WrapperOk(w) && rest != [] && CommandWord(rest[0])
    ensures Name(w.word) in WRAPPERS && Wrapped(Print(w) + rest, 0) == At(|Print(w)|)
  {
    hide *;
    FormNames(w.form);
    CommandNoDash(rest[0]);
    Printed(w, rest);
    FormPeels(Print(w) + rest, w.form, rest);
  }

  lemma Printed(w: Wrapper, rest: seq<string>)
    requires WrapperOk(w)
    ensures var tokens := Print(w) + rest;
      && tokens != [] && tokens[0] == w.word && tokens == [tokens[0]] + PrintForm(w.form) + rest
      && Remains(tokens, 1, PrintForm(w.form) + rest) && |Print(w)| == 1 + |PrintForm(w.form)|
      && Name(w.word) == FormName(w.form) && FormOk(w.form)
  {
    hide PrintForm, Name, CommandWord, FormOk;
    var tokens := Print(w) + rest;
    assert tokens == [w.word] + PrintForm(w.form) + rest;
    assert tokens[1..] == PrintForm(w.form) + rest;
  }

  lemma FormPeels(tokens: seq<string>, form: Form, rest: seq<string>)
    requires tokens != [] && Name(tokens[0]) == FormName(form) && FormName(form) in WRAPPERS && FormOk(form)
    requires tokens == [tokens[0]] + PrintForm(form) + rest && Remains(tokens, 1, PrintForm(form) + rest)
    requires rest != [] && CommandWord(rest[0]) && (rest[0] == "" || rest[0][0] != '-')
    ensures Wrapped(tokens, 0) == At(1 + |PrintForm(form)|)
  {
    hide Remains, CommandWord, Name, Wrapped, UsesOk, PrintUses, PrintExecUses;
    match form
    case Optioned(tool, uses, ended) => OptionedPeels(tokens, tool, uses, ended, rest);
    case Timed(limits, ended, duration) => TimedPeels(tokens, limits, ended, duration, rest);
    case Executed(names, ended) => ExecutedPeels(tokens, names, ended, rest);
    case Environment(_, _) => EnvironmentPeels(tokens, form, rest);
    case Busybox => BusyboxPeels(tokens);
    case Builtin(separators) => BuiltinPeels(tokens, separators, rest);
    case Command(paths) => CommandPeels(tokens, paths, rest);
  }

  lemma ExecutedPeels(tokens: seq<string>, names: seq<ExecUse>, ended: bool, rest: seq<string>)
    requires tokens != [] && Name(tokens[0]) == "exec" && rest != [] && (rest[0] == "" || rest[0][0] != '-')
    requires Remains(tokens, 1, PrintExecUses(names) + Separator(ended) + rest)
    ensures Wrapped(tokens, 0) == At(1 + |PrintExecUses(names) + Separator(ended)|)
  {
    hide Remains, Name, PrintExecUses, ReadOptions;
    assert PrintExecUses(names) + Separator(ended) + rest == PrintExecUses(names) + (Separator(ended) + rest);
    ExecUsesRead(tokens, 1, names, Separator(ended) + rest);
    ReaderStops(Exec, tokens, 1 + |PrintExecUses(names)|, ended, rest);
  }

  lemma EnvironmentPeels(tokens: seq<string>, form: Form, rest: seq<string>)
    requires tokens != [] && Name(tokens[0]) == "env" && form.Environment? && FormOk(form)
    requires tokens == [tokens[0]] + PrintForm(form) + rest && rest != [] && CommandWord(rest[0])
    ensures Wrapped(tokens, 0) == At(1 + |PrintForm(form)|)
  {
    EnvironmentEnds(tokens, form, rest);
    hide EnvPosition, Name, PrintForm, FormOk, CommandWord;
  }

  lemma BusyboxPeels(tokens: seq<string>)
    requires tokens != [] && Name(tokens[0]) == "busybox"
    ensures Wrapped(tokens, 0) == At(1)
  {
    hide Name;
  }

  lemma BuiltinPeels(tokens: seq<string>, separators: nat, rest: seq<string>)
    requires tokens != [] && Name(tokens[0]) == "builtin" && rest != [] && (rest[0] == "" || rest[0][0] != '-')
    requires Remains(tokens, 1, PrintForm(Builtin(separators)) + rest)
    ensures Wrapped(tokens, 0) == At(1 + separators)
  {
    hide Name, Remains;
    SeparatorsSkipped(tokens, 1, separators, {"--"}, PrintForm(Builtin(separators)), rest);
  }

  lemma OptionedPeels(tokens: seq<string>, tool: Tool, uses: seq<Use>, ended: bool, rest: seq<string>)
    requires tokens != [] && Name(tokens[0]) == ToolName(tool) && tool != TimeoutTool && UsesOk(tool, uses)
    requires Remains(tokens, 1, PrintUses(uses) + Separator(ended) + rest) && rest != [] && (rest[0] == "" || rest[0][0] != '-')
    ensures Name(tokens[0]) in WRAPPERS && Wrapped(tokens, 0) == At(1 + |PrintUses(uses) + Separator(ended)|)
  {
    FormNames(Optioned(tool, uses, ended));
    hide UsesOk, PrintUses, Remains, Name, OptionsEnd, ReadOptions, EnvPosition;
    if tool == SudoTool || tool == StdbufTool {
      var reader := if tool == SudoTool then Sudo else Stdbuf;
      assert PrintUses(uses) + Separator(ended) + rest == PrintUses(uses) + (Separator(ended) + rest);
      ReadUses(reader, tokens, 1, uses, Separator(ended) + rest);
      ReaderStops(reader, tokens, 1 + |PrintUses(uses)|, ended, rest);
    } else {
      OptionsStop(tool, tokens, 1, uses, ended, rest);
    }
  }

  lemma TimedPeels(tokens: seq<string>, limits: seq<Use>, ended: bool, duration: string, rest: seq<string>)
    requires tokens != [] && Name(tokens[0]) == "timeout" && UsesOk(TimeoutTool, limits)
    requires duration == "" || duration[0] != '-'
    requires Remains(tokens, 1, PrintUses(limits) + Separator(ended) + [duration] + rest)
    ensures Wrapped(tokens, 0) == At(1 + |PrintUses(limits) + Separator(ended) + [duration]|)
  {
    hide UsesOk, PrintUses, Remains, Name, OptionsEnd;
    var text := PrintUses(limits) + Separator(ended);
    assert text + [duration] + rest == text + ([duration] + rest);
    OptionsStop(TimeoutTool, tokens, 1, limits, ended, [duration] + rest);
  }

  lemma CommandPeels(tokens: seq<string>, paths: seq<bool>, rest: seq<string>)
    requires tokens != [] && Name(tokens[0]) == "command" && rest != [] && CommandWord(rest[0])
    requires Remains(tokens, 1, PrintForm(Command(paths)) + rest)
    ensures Wrapped(tokens, 0) == At(1 + |paths|)
  {
    CommandNoDash(rest[0]);
    CommandIs(tokens);
    hide Name, CommandWord, Wrapped;
    var text := PrintForm(Command(paths));
    SeparatorsSkipped(tokens, 1, |paths|, {"--", "-p"}, text, rest);
    assert text + rest == [(text + rest)[0]] + (text + rest)[1..];
    RemainsAt(tokens, 1, (text + rest)[0], (text + rest)[1..]);
  }

  lemma CommandIs(tokens: seq<string>)
    requires tokens != [] && Name(tokens[0]) == "command"
    ensures Wrapped(tokens, 0) == CommandBuiltin(tokens, 1)
  {
    hide Name, CommandBuiltin;
  }

  // ---- Any nesting --------------------------------------------------------

  function PrintAll(wrappers: seq<Wrapper>): seq<string> {
    if wrappers == [] then [] else Print(wrappers[0]) + PrintAll(wrappers[1..])
  }

  ghost predicate WrappersOk(wrappers: seq<Wrapper>) {
    forall i :: 0 <= i < |wrappers| ==> WrapperOk(wrappers[i])
  }

  lemma StartsWithCommandWord(wrappers: seq<Wrapper>, command: seq<string>)
    requires WrappersOk(wrappers) && command != [] && CommandWord(command[0])
    ensures PrintAll(wrappers) + command != [] && CommandWord((PrintAll(wrappers) + command)[0])
  {
    hide CommandWord, Name, FormOk;
    if wrappers != [] { assert WrapperOk(wrappers[0]) && PrintAll(wrappers)[0] == wrappers[0].word; }
  }

  /** Behind any nesting of wrapper invocations, every option taking the words it
      should, the resolver finds the command it would find without them. */
  lemma {:induction false} WrappersPeel(wrappers: seq<Wrapper>, command: seq<string>)
    requires WrappersOk(wrappers) && command != [] && CommandWord(command[0])
    ensures ResolveFrom(PrintAll(wrappers) + command, 0) == Shifted(ResolveFrom(command, 0), |PrintAll(wrappers)|)
    decreases |wrappers|
  {
    hide *;
    PrintAllFirst(wrappers, command);
    if wrappers == [] {
      Unshifted(ResolveFrom(command, 0));
    } else {
      var w, rest := wrappers[0], PrintAll(wrappers[1..]) + command;
      StartsWithCommandWord(wrappers[1..], command);
      WrappersPeel(wrappers[1..], command);
      PeelOne(w, rest);
      ShiftedTwice(ResolveFrom(command, 0), |PrintAll(wrappers[1..])|, |Print(w)|);
    }
  }

  lemma PrintAllFirst(wrappers: seq<Wrapper>, command: seq<string>)
    requires WrappersOk(wrappers)
    ensures wrappers == [] ==> PrintAll(wrappers) == [] && PrintAll(wrappers) + command == command
    ensures wrappers != [] ==> WrapperOk(wrappers[0]) && WrappersOk(wrappers[1..])
    ensures wrappers != [] ==> PrintAll(wrappers) + command == Print(wrappers[0]) + (PrintAll(wrappers[1..]) + command)
    ensures wrappers != [] ==> |PrintAll(wrappers)| == |Print(wrappers[0])| + |PrintAll(wrappers[1..])|
  {
    hide WrapperOk, Print;
  }

  lemma Unshifted(p: Position)
    ensures Shifted(p, 0) == p
  {
  }

  lemma ShiftedTwice(p: Position, m: nat, n: nat)
    ensures Shifted(Shifted(p, m), n) == Shifted(p, n + m)
  {
  }

  lemma PeelOne(w: Wrapper, rest: seq<string>)
    requires WrapperOk(w) && rest != [] && CommandWord(rest[0])
    ensures ResolveFrom(Print(w) + rest, 0) == Shifted(ResolveFrom(rest, 0), |Print(w)|)
  {
    hide *;
    Printed(w, rest);
    WrapperPeels(w, rest);
    PeelStep(Print(w) + rest, |Print(w)|);
    ResolveShift(Print(w), rest, 0);
  }

  lemma PeelStep(tokens: seq<string>, n: nat)
    requires tokens != [] && Name(tokens[0]) in WRAPPERS && Wrapped(tokens, 0) == At(n)
    ensures ResolveFrom(tokens, 0) == ResolveFrom(tokens, n)
  {
    hide Wrapped, Recognized, Name, DockerLike;
    if Recognized(tokens, 0) { RecognizedIsNoWrapper(tokens, 0); }
  }

  lemma NothingBefore(tokens: seq<string>)
    requires tokens != [] && CommandWord(tokens[0])
    ensures Resolve(tokens) == ResolveFrom(tokens, 0)
  {
    hide ResolveFrom;
  }

  lemma WrappersTransparent(wrappers: seq<Wrapper>, command: seq<string>)
    requires WrappersOk(wrappers) && command != [] && CommandWord(command[0])
    ensures Resolve(PrintAll(wrappers) + command) == Shifted(Resolve(command), |PrintAll(wrappers)|)
  {
    hide ResolveFrom, Resolve, PrintAll, WrappersOk, CommandWord;
    StartsWithCommandWord(wrappers, command);
    NothingBefore(PrintAll(wrappers) + command);
    NothingBefore(command);
    WrappersPeel(wrappers, command);
  }

  // ---- What stands before, and what is refused ----------------------------

  /** A negation, or an assignment to a shell name. */
  ghost predicate PrefixWord(t: string) {
    t == "!" || exists name, value :: Identifier(name) && t == name + "=" + value
  }

  lemma PrefixWordSkipped(t: string)
    requires PrefixWord(t)
    ensures t == "!" || ShellAssignment(t)
  {
    if t != "!" {
      var name, value :| Identifier(name) && t == name + "=" + value;
      NoEquals(name);
      EnvGrammar.FirstIsAt(name, value, '=');
      assert t[|name|] == '=' && t[..|name|] == name;
    }
  }

  lemma NoEquals(name: string)
    requires Identifier(name)
    ensures '=' !in name
  {
  }

  lemma {:induction false} PrefixSkipped(prefix: seq<string>, rest: seq<string>, k: nat)
    requires (forall t :: t in prefix ==> PrefixWord(t)) && k <= |prefix|
    ensures SkipPrefix(prefix + rest, k) == |prefix| + SkipPrefix(rest, 0)
    decreases |prefix| - k
  {
    hide PrefixWord, ShellAssignment;
    if k < |prefix| {
      assert (prefix + rest)[k] == prefix[k] && prefix[k] in prefix;
      PrefixWordSkipped(prefix[k]);
      PrefixSkipped(prefix, rest, k + 1);
    } else {
      SkipPrefixBehind(prefix, rest, 0);
    }
  }

  lemma {:induction false} SkipPrefixBehind(prefix: seq<string>, rest: seq<string>, k: nat)
    requires k <= |rest|
    ensures SkipPrefix(prefix + rest, |prefix| + k) == |prefix| + SkipPrefix(rest, k)
    decreases |rest| - k
  {
    hide ShellAssignment;
    if k < |rest| {
      assert (prefix + rest)[|prefix| + k] == rest[k];
      if rest[k] == "!" || ShellAssignment(rest[k]) { SkipPrefixBehind(prefix, rest, k + 1); }
    }
  }

  /** Negations and assignments in front of a command line do not matter. */
  lemma PrefixTransparent(prefix: seq<string>, rest: seq<string>)
    requires forall t :: t in prefix ==> PrefixWord(t)
    ensures Resolve(prefix + rest) == Shifted(Resolve(rest), |prefix|)
  {
    hide ResolveFrom, PrefixWord;
    PrefixSkipped(prefix, rest, 0);
    ResolveShift(prefix, rest, SkipPrefix(rest, 0));
  }

  /** The name of a path is what stands behind its last slash. */
  lemma {:induction false} NameOfPath(dir: string, base: string)
    requires base != "" && base != "." && '/' !in base
    ensures Name(base) == base && Name(dir + "/" + base) == base
    decreases |dir|
  {
    EnvGrammar.FirstIsNowhere(base, '/');
    var path := dir + "/" + base;
    var cut := EnvCommand.FirstIndex(path, '/');
    assert path[|dir|] == '/';
    assert cut <= |dir| by { assert forall k :: 0 <= k < cut ==> path[k] == path[..cut][k]; }
    if cut < |dir| {
      assert path[cut + 1..] == dir[cut + 1..] + "/" + base;
      NameOfPath(dir[cut + 1..], base);
    } else {
      assert path[cut + 1..] == base;
    }
  }

  /** A word with a dash that is no option of `stdbuf` is refused. */
  lemma StdbufRefuses(tokens: seq<string>, word: string, rest: seq<string>)
    requires Remains(tokens, 1, [word] + rest) && Name(tokens[0]) == "stdbuf"
    requires word != "" && word[0] == '-' && word != "--" && forall u :: UseOk(StdbufTool, u) ==> Head(u) != word
    ensures Wrapped(tokens, 0) == Failed
  {
    DashAt(tokens, 1, word, rest);
    StdbufUnknown(word);
    hide Name, StdbufReading;
  }

  lemma StdbufUnknown(word: string)
    requires word != "" && word[0] == '-' && word != "--" && forall u :: UseOk(StdbufTool, u) ==> Head(u) != word
    ensures StdbufReading(word) == Refuses
  {
    hide StdbufReading, UseOk, Head;
    if StdbufReading(word) != Refuses { var u := StdbufKnown(word); }
  }

  /** Whatever is not refused is the first word of a use. */
  lemma StdbufKnown(word: string) returns (u: Use)
    requires word != "" && word[0] == '-' && word != "--" && StdbufReading(word) != Refuses
    ensures UseOk(StdbufTool, u) && Head(u) == word
  {
    var cut := EnvCommand.FirstIndex(word, '=');
    if word in KnownWords(StdbufTool) {
      var o := StdbufOption(word);
      u := Separate(o, word == o.long, "");
    } else if '=' in word && word[..cut] in KnownWords(StdbufTool) {
      EqualsInside(word);
      u := StdbufSetOff(word, cut);
    } else {
      u := Attached(ValueOptions(StdbufTool)[if word[1] == 'i' then 0 else if word[1] == 'o' then 1 else 2], false, word[2..]);
      assert u.option.short == word[..2];
    }
  }

  lemma EqualsInside(word: string)
    ensures '=' in word ==> EnvCommand.FirstIndex(word, '=') < |word|
  {
    var cut := EnvCommand.FirstIndex(word, '=');
    assert word == word[..cut] + word[cut..];
  }

  lemma StdbufOption(word: string) returns (o: Valued)
    requires word in KnownWords(StdbufTool)
    ensures o in ValueOptions(StdbufTool) && word != "" && (word == o.short || word == o.long)
  {
    KnownWordsExact(StdbufTool, word);
    hide ValueOptions, KnownWords;
    o :| o in ValueOptions(StdbufTool) && word != "" && (word == o.short || word == o.long);
  }

  lemma StdbufSetOff(word: string, cut: nat) returns (u: Use)
    requires cut < |word| && word[cut] == '=' && word[..cut] in KnownWords(StdbufTool)
    ensures UseOk(StdbufTool, u) && Head(u) == word
  {
    var o := StdbufOption(word[..cut]);
    hide ValueOptions, KnownWords;
    if word[..cut] == o.long {
      u := Attached(o, true, word[cut + 1..]);
      assert word == o.long + "=" + word[cut + 1..];
    } else {
      u := Attached(o, false, word[cut..]);
      assert word == o.short + word[cut..];
    }
  }

  /** A word with a dash that is no option of `exec` is refused. */
  lemma ExecRefuses(tokens: seq<string>, word: string, rest: seq<string>)
    requires Remains(tokens, 1, [word] + rest) && Name(tokens[0]) == "exec"
    requires word != "" && word[0] == '-' && word != "--" && forall u :: ExecHead(u) != word
    ensures Wrapped(tokens, 0) == Failed
  {
    DashAt(tokens, 1, word, rest);
    hide Name, ExecReading, ExecHead;
    if ExecReading(word) != Refuses { var u := ExecKnown(word); }
  }

  lemma ExecKnown(word: string) returns (u: ExecUse)
    requires word != "" && word[0] == '-' && word != "--" && ExecReading(word) != Refuses
    ensures ExecHead(u) == word
  {
    assert word == "-" + word[1..];
    if EnvCommand.HasPrefix(word, "--argv0=") {
      u := LongNamed(true, word[8..]);
      assert word == word[..8] + word[8..];
    } else if word == "--argv0" {
      u := LongNamed(false, "");
    } else {
      assert forall c :: c in word[1..] ==> c in "acl";
      var flags := ExecFlagsOf(word[1..]);
      u := Clustered(flags, "");
    }
  }

  lemma {:induction false} ExecFlagsOf(text: string) returns (flags: seq<ExecFlag>)
    requires forall c :: c in text ==> c in "acl"
    ensures ExecLetters(flags) == text
    decreases |text|
  {
    if text == "" {
      flags := [];
    } else {
      assert text[0] in text;
      var rest := ExecFlagsOf(text[1..]);
      flags := [if text[0] == 'c' then Clear else if text[0] == 'l' then Login else Renamed] + rest;
      assert flags[1..] == rest && text == [text[0]] + text[1..];
    }
  }

  /** `command -v` and `command -V` only ask about a command. */
  lemma CommandQuery(tokens: seq<string>)
    requires |tokens| > 1 && Name(tokens[0]) == "command" && tokens[1] in {"-v", "-V"}
    ensures Wrapped(tokens, 0) == Nowhere
  {
    hide Name;
  }

  // ---- The command itself -------------------------------------------------

  /** A word that stands for a shell variable. */
  ghost predicate VariableWord(t: string) {
    exists name :: Identifier(name) && (t == "$" + name || t == "${" + name + "}")
  }

  lemma VariableReads(t: string)
    ensures ShellVariable(t) <==> VariableWord(t)
  {
    if ShellVariable(t) {
      var name := if Identifier(t[1..]) then t[1..] else t[2..|t| - 1];
      if Identifier(t[1..]) { assert t == "$" + name; } else { assert t == "${" + name + "}"; }
    }
    if name :| Identifier(name) && (t == "$" + name || t == "${" + name + "}") {
      if t == "$" + name { assert t[1..] == name; } else { BracedName(t, name); }
    }
  }

  lemma BracedName(t: string, name: string)
    requires Identifier(name) && t == "${" + name + "}"
    ensures ShellVariable(t)
  {
    assert t[0] == '$' && t[1] == '{' && t[|t| - 1] == '}' && t[2..|t| - 1] == name;
  }

  /** Docker itself, or a variable, with a Docker verb behind it. */
  ghost predicate DockerCall(tokens: seq<string>, k: nat) {
    && k + 1 < |tokens| && (Name(tokens[k]) == "docker" || Name(tokens[k]) == "docker-compose" || VariableWord(tokens[k]))
    && tokens[k + 1] in {"build", "compose", "container", "create", "image", "pull", "run"}
  }

  /** The commands whose arguments are data, the shells, and Docker. */
  ghost predicate Judged(tokens: seq<string>)
    requires tokens != []
  {
    || Name(tokens[0]) in {"echo", "log", "printf", "proof", "warn"}
    || Name(tokens[0]) in {"ash", "bash", "dash", "eval", "hush", "sh", "zsh"}
    || Name(tokens[0]) in {"docker", "docker-compose"}
    || DockerCall(tokens, 0)
  }

  /** A command that is no wrapper is found where it stands, unless the gate does
      not know it and a Docker call stands behind it. */
  lemma CommandJudged(command: seq<string>)
    requires command != [] && CommandWord(command[0]) && Name(command[0]) !in WRAPPERS
    ensures Resolve(command) == if !Judged(command) && (exists k :: 0 < k < |command| && DockerCall(command, k)) then Failed else At(0)
  {
    NothingBefore(command);
    hide Name, ShellVariable, VariableWord, CommandWord, Resolve;
    forall k | 0 <= k < |command| ensures DockerLike(command, k) <==> DockerCall(command, k) {
      VariableReads(command[k]);
    }
    JudgedIs(command);
    hide DockerLike, DockerCall, Recognized, Judged;
  }

  lemma JudgedIs(command: seq<string>)
    requires command != []
    ensures Recognized(command, 0) <==> Judged(command)
  {
    hide Name, ShellVariable, VariableWord;
    VariableReads(command[0]);
  }

  // ---- Where the arity is misread -------------------------------------------

  /** `sudo -nu root docker run`: the value option stands behind a flag in one
      word. The script takes the word for a flag, the value for the command, and
      refuses what stands behind it. */
  lemma SudoClusterMisread()
    ensures Resolve(["sudo", "-nu", "root", "docker", "run"]) == Failed
  {
    var w := Wrapper("sudo", Optioned(SudoTool, [Alone("-nu")], false));
    var command := ["root", "docker", "run"];
    SudoFlags();
    RootIsUnknown();
    hide *;
    SudoPrinted();
    WrappersTransparent([w], command);
    assert ["sudo", "-nu"] + command == ["sudo", "-nu", "root", "docker", "run"];
    FailedStays(2);
  }

  lemma FailedStays(n: nat)
    ensures Shifted(Failed, n) == Failed
  {
  }

  lemma SudoPrinted()
    ensures PrintAll([Wrapper("sudo", Optioned(SudoTool, [Alone("-nu")], false))]) == ["sudo", "-nu"]
  {
    var uses := [Alone("-nu")];
    assert uses[1..] == [] && PrintUses(uses) == ["-nu"];
    var w := Wrapper("sudo", Optioned(SudoTool, uses, false));
    assert [w][1..] == [];
  }

  lemma SudoFlags()
    ensures WrappersOk([Wrapper("sudo", Optioned(SudoTool, [Alone("-nu")], false))])
  {
    SudoWord();
    SudoFlag();
    hide Name, CommandWord, UseOk;
  }

  lemma SudoWord()
    ensures CommandWord("sudo") && Name("sudo") == "sudo"
  {
    NameOfPath("", "sudo");
    DashIs("sudo");
  }

  lemma SudoFlag()
    ensures UseOk(SudoTool, Alone("-nu"))
  {
    hide ValueOptions;
    forall o | o in ValueOptions(SudoTool) ensures "-nu" != o.short && "-nu" != o.long { Spellings(SudoTool, o); }
  }

  lemma RootIsUnknown()
    ensures CommandWord("root") && Resolve(["root", "docker", "run"]) == Failed
  {
    var command := ["root", "docker", "run"];
    DashIs("root");
    RootNames();
    RootUnjudged();
    hide Resolve, DockerCall, Judged, Name;
    CommandJudged(command);
  }

  lemma RootNames()
    ensures Name("root") == "root" && Name("docker") == "docker" && "root" !in WRAPPERS
  {
    NameOfPath("", "root");
    NameOfPath("", "docker");
    hide Name;
  }

  lemma RootUnjudged()
    ensures var command := ["root", "docker", "run"]; !Judged(command) && DockerCall(command, 1)
  {
    RootNames();
    RootNoVariable();
    hide Name, VariableWord;
  }

  lemma RootNoVariable()
    ensures !VariableWord("root")
  {
    assert "root"[0] == 'r';
    assert forall name: string :: ("$" + name)[0] == '$' && ("${" + name + "}")[0] == '$';
  }
}
