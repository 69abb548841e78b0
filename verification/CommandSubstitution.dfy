/** scripts/check_container_image_pins.py: finding the end of a shell command
    substitution, and collecting the substituted commands of a statement. */
module CommandSubstitution {
  import opened Wrappers

  datatype Quote = Unquoted | SingleQuoted | DoubleQuoted

  predicate StartsWith(value: string, index: nat, text: string) {
    index + |text| <= |value| && value[index..index + |text|] == text
  }

  // ---- What the matcher computes ------------------------------------------

  /** The first unescaped backtick from index on. */
  function BacktickFrom(value: string, index: nat, escaped: bool): (end: Option<nat>)
    ensures end.Some? ==> index <= end.value < |value|
    decreases |value| - index
  {
    if index >= |value| then None
    else if escaped then BacktickFrom(value, index + 1, false)
    else if value[index] == '\\' then BacktickFrom(value, index + 1, true)
    else if value[index] == '`' then Some(index)
    else BacktickFrom(value, index + 1, false)
  }

  /** One step inside quotes or escapes; None when the character has no quoting role. */
  function QuoteStep(c: char, index: nat, quote: Quote, escaped: bool): (step: Option<(nat, Quote, bool)>)
    ensures step.Some? ==> step.value.0 == index + 1
  {
    if escaped then Some((index + 1, quote, false))
    else if c == '\\' && quote != SingleQuoted then Some((index + 1, quote, true))
    else if quote == SingleQuoted then Some((index + 1, if c == '\'' then Unquoted else quote, false))
    else if c == '\'' && quote == Unquoted then Some((index + 1, SingleQuoted, false))
    else if c == '"' then Some((index + 1, if quote == DoubleQuoted then Unquoted else DoubleQuoted, false))
    else None
  }

  /** What a construct that is not plain text does to the scan. */
  datatype NestedStep = NotNested | Unterminated | Skip(index: nat, depthDelta: nat)

  function NestedConstruct(value: string, index: nat): (step: NestedStep)
    requires index < |value|
    ensures step.Skip? ==> index < step.index <= |value|
    decreases |value| - index, 0
  {
    if StartsWith(value, index, "$((") then Skip(index + 3, 2)
    else if StartsWith(value, index, "$(") then Skipped(CloseFrom(value, index + 2, 1, Unquoted, false))
    else if value[index] == '`' then Skipped(BacktickFrom(value, index + 1, false))
    else NotNested
  }

  function Skipped(end: Option<nat>): NestedStep {
    if end.None? then Unterminated else Skip(end.value + 1, 0)
  }

  /** Where the enclosing substitution closes, scanning from index at the given state. */
  function CloseFrom(value: string, index: nat, depth: nat, quote: Quote, escaped: bool): (end: Option<nat>)
    requires depth > 0
    ensures end.Some? ==> index <= end.value < |value| && value[end.value] == ')'
    decreases |value| - index, 2
  {
    if index >= |value| then None else CloseStep(value, index, depth, quote, escaped)
  }

  function CloseStep(value: string, index: nat, depth: nat, quote: Quote, escaped: bool): (end: Option<nat>)
    requires depth > 0 && index < |value|
    ensures end.Some? ==> index <= end.value < |value| && value[end.value] == ')'
    decreases |value| - index, 1
  {
    match QuoteStep(value[index], index, quote, escaped)
    case Some((next, quote', escaped')) => CloseFrom(value, next, depth, quote', escaped')
    case None =>
      match NestedConstruct(value, index)
      case Unterminated => None
      case Skip(next, depthDelta) => CloseFrom(value, next, depth + depthDelta, quote, false)
      case NotNested =>
        if quote == Unquoted && value[index] == '(' then CloseFrom(value, index + 1, depth + 1, quote, false)
        else if quote == Unquoted && value[index] == ')' then
          if depth == 1 then Some(index) else CloseFrom(value, index + 1, depth - 1, quote, false)
        else CloseFrom(value, index + 1, depth, quote, false)
  }

  // ---- The matcher as written ---------------------------------------------

  method BacktickEnd(value: string, start: nat) returns (end: Option<nat>)
    ensures end == BacktickFrom(value, start + 1, false)
  {
    var escaped := false;
    var index := start + 1;
    while index < |value|
      invariant BacktickFrom(value, start + 1, false) == BacktickFrom(value, index, escaped)
    {
      var c := value[index];
      if escaped {
        escaped := false;
      } else if c == '\\' {
        escaped := true;
      } else if c == '`' {
        return Some(index);
      }
      index := index + 1;
    }
    end := None;
  }

  method NestedConstructStep(value: string, index: nat) returns (step: NestedStep)
    requires index < |value|
    ensures step == NestedConstruct(value, index)
    decreases |value| - index, 0
  {
    hide CloseFrom, BacktickFrom, StartsWith;
    if StartsWith(value, index, "$((") {
      return Skip(index + 3, 2);
    }
    if StartsWith(value, index, "$(") {
      StartsWithinValue(value, index, "$(");
      var nestedEnd := CommandSubstitutionEnd(value, index);
      return if nestedEnd.None? then Unterminated else Skip(nestedEnd.value + 1, 0);
    }
    if value[index] == '`' {
      var nestedEnd := BacktickEnd(value, index);
      return if nestedEnd.None? then Unterminated else Skip(nestedEnd.value + 1, 0);
    }
    step := NotNested;
  }

  lemma StartsWithinValue(value: string, index: nat, text: string)
    requires StartsWith(value, index, text)
    ensures index + |text| <= |value|
  {
  }

  method CommandSubstitutionEnd(value: string, start: nat) returns (end: Option<nat>)
    requires start + 2 <= |value|
    ensures end == CloseFrom(value, start + 2, 1, Unquoted, false)
    decreases |value| - start - 1, 1
  {
    hide NestedConstruct, QuoteStep;
    var depth, quote, escaped, index := 1, Unquoted, false, start + 2;
    while index < |value|
      invariant index >= start + 2 && depth >= 1
      invariant CloseFrom(value, start + 2, 1, Unquoted, false) == CloseFrom(value, index, depth, quote, escaped)
      decreases |value| - index
    {
      NotEscaped(value[index], index, quote, escaped);
      var quoteStep := QuoteStep(value[index], index, quote, escaped);
      if quoteStep.Some? {
        index, quote, escaped := quoteStep.value.0, quoteStep.value.1, quoteStep.value.2;
        continue;
      }
      var nestedStep := NestedConstructStep(value, index);
      match nestedStep {
        case Unterminated => return None;
        case Skip(next, depthDelta) =>
          index, depth := next, depth + depthDelta;
          continue;
        case NotNested =>
      }
      if quote == Unquoted && value[index] == '(' {
        depth := depth + 1;
      } else if quote == Unquoted && value[index] == ')' {
        depth := depth - 1;
        if depth == 0 {
          return Some(index);
        }
      }
      index := index + 1;
    }
    end := None;
  }

  lemma NotEscaped(c: char, index: nat, quote: Quote, escaped: bool)
    ensures QuoteStep(c, index, quote, escaped).None? ==> !escaped
  {
  }

  // ---- Collecting the substituted commands --------------------------------

  /** Characters the collector steps over. */
  predicate Inert(c: char) { c != '\\' && c != '$' && c != '`' }

  /** The commands collected from index on; an unterminated substitution ends the collection. */
  function Collected(value: string, index: nat): seq<string>
    decreases |value| - index, 1
  {
    if index >= |value| then []
    else if value[index] == '\\' then Collected(value, index + 2)
    else if StartsWith(value, index, "$((") then Collected(value, index + 3)
    else if StartsWith(value, index, "$(") then
      CollectedPast(value, index, index + 2, CloseFrom(value, index + 2, 1, Unquoted, false))
    else if value[index] == '`' then
      CollectedPast(value, index, index + 1, BacktickFrom(value, index + 1, false))
    else Collected(value, index + 1)
  }

  /** The command from begin to end, what it contains, and what follows it. */
  function CollectedPast(value: string, index: nat, begin: nat, end: Option<nat>): seq<string>
    requires index < begin && (end.Some? ==> begin <= end.value < |value|)
    decreases |value| - index, 0
  {
    if end.None? then [] else
      [value[begin..end.value]] + Collected(value[begin..end.value], 0) + Collected(value, end.value + 1)
  }

  /** The nested `collect`: appends to the shared list of commands. */
  method Collect(value: string, commands: seq<string>) returns (extended: seq<string>)
    ensures extended == commands + Collected(value, 0)
    decreases |value|
  {
    hide CloseFrom, BacktickFrom, StartsWith;
    extended := commands;
    var index := 0;
    while index < |value|
      invariant commands + Collected(value, 0) == extended + Collected(value, index)
      decreases |value| - index
    {
      if value[index] == '\\' {
        index := index + 2;
        continue;
      }
      if StartsWith(value, index, "$((") {
        index := index + 3;
        continue;
      }
      if StartsWith(value, index, "$(") {
        StartsWithinValue(value, index, "$(");
        var end := CommandSubstitutionEnd(value, index);
        if end.None? {
          return;
        }
        extended := CollectPast(value, index + 2, end.value, extended);
        index := end.value + 1;
        continue;
      }
      if value[index] == '`' {
        var end := BacktickEnd(value, index);
        if end.None? {
          return;
        }
        extended := CollectPast(value, index + 1, end.value, extended);
        index := end.value + 1;
        continue;
      }
      index := index + 1;
    }
  }

  /** Append one command and everything it contains. */
  method CollectPast(value: string, begin: nat, end: nat, commands: seq<string>) returns (extended: seq<string>)
    requires 0 < begin <= end < |value|
    ensures extended == commands + [value[begin..end]] + Collected(value[begin..end], 0)
    decreases |value|, 0
  {
    hide Collected;
    extended := Collect(value[begin..end], commands + [value[begin..end]]);
  }
}
