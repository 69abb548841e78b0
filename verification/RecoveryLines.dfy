/** scripts/mint_recovery_contract_v25.py: how the lines look that the editing of a
    contract goes by. */
module RecoveryLines {
  import opened Wrappers
  import opened PythonStrings
  import opened RecoveryText

  predicate Blank(s: string) { forall c :: c in s ==> Space(c) }

  lemma PrefixIff(line: string, prefix: string)
    ensures StartsWith(line, prefix) <==> exists tail :: line == prefix + tail
  {
    if StartsWith(line, prefix) { assert line == prefix + line[|prefix|..]; }
  }

  /** A block is announced by its name before its columns, before AS, or in the first WITH. */
  lemma HeaderIff(line: string, name: string)
    ensures Header(line, name) <==>
      exists tail :: line == name + "(" + tail || line == name + " AS (" + tail || line == "WITH " + name + "(" + tail
  {
    PrefixIff(line, name + "(");
    PrefixIff(line, name + " AS (");
    PrefixIff(line, "WITH " + name + "(");
  }

  lemma {:induction false} StrippedSplits(s: string)
    ensures exists space :: Blank(space) && s == Stripped(s) + space
    ensures Stripped(s) == "" || !Space(Stripped(s)[|Stripped(s)| - 1])
    decreases |s|
  {
    hide Space;
    if s != "" && Space(s[|s| - 1]) {
      var k := |s| - 1;
      StrippedSplits(s[..k]);
      var space :| Blank(space) && s[..k] == Stripped(s[..k]) + space;
      assert Blank(space + [s[k]]) && s == Stripped(s) + (space + [s[k]]);
    } else {
      assert Blank("") && s == Stripped(s) + "";
    }
  }

  /** Text that does not end in white space is what is left when white space behind it is taken away. */
  lemma {:induction false} StrippedIs(text: string, space: string)
    requires Blank(space) && (text == "" || !Space(text[|text| - 1]))
    ensures Stripped(text + space) == text
    decreases |space|
  {
    hide Space;
    if space == "" {
      assert text + space == text;
    } else {
      var k := |space| - 1;
      assert space[k] in space && (text + space)[..|text + space| - 1] == text + space[..k];
      StrippedIs(text, space[..k]);
    }
  }

  lemma EndsIff(line: string, suffix: string)
    requires suffix != "" && !Space(suffix[|suffix| - 1])
    ensures EndsWith(Stripped(line), suffix) <==> exists head, space :: Blank(space) && line == head + suffix + space
  {
    StrippedSplits(line);
    hide Stripped, Space;
    if EndsWith(Stripped(line), suffix) {
      var space :| Blank(space) && line == Stripped(line) + space;
      var head := Stripped(line)[..|Stripped(line)| - |suffix|];
      assert Stripped(line) == head + suffix;
    }
    if head, space :| Blank(space) && line == head + suffix + space {
      StrippedIs(head + suffix, space);
      assert (head + suffix)[|head|..] == suffix;
    }
  }

  /** The opening line ends in AS and a parenthesis. */
  lemma OpeningIff(line: string)
    ensures Opening(line) <==> exists head, space :: Blank(space) && line == head + " AS (" + space
  {
    EndsIff(line, " AS (");
  }

  /** A line lacks its comma when it ends in a parenthesis, white space aside. */
  lemma NeedsCommaIff(line: string)
    ensures NeedsComma(line) <==> exists head, space :: Blank(space) && line == head + ")" + space
  {
    EndsIff(line, ")");
    LastOf(Stripped(line), ")");
    LastOf(Stripped(line), "),");
  }

  lemma LastOf(text: string, suffix: string)
    requires suffix != ""
    ensures EndsWith(text, suffix) ==> text != "" && text[|text| - 1] == suffix[|suffix| - 1]
  {
    if EndsWith(text, suffix) { assert text[|text| - |suffix|..][|suffix| - 1] == text[|text| - 1]; }
  }

  /** The first line of its kind from lo on. */
  ghost predicate FirstLine(lines: Lines, lo: nat, i: nat, kind: Kind) {
    lo <= i < |lines| && Is(lines[i], kind) && forall j :: lo <= j < i ==> !Is(lines[j], kind)
  }

  lemma FirstIff(lines: Lines, lo: nat, hi: nat, kind: Kind, i: nat)
    requires lo <= hi <= |lines|
    ensures First(lines, lo, hi, kind) == i && i < hi <==> FirstLine(lines, lo, i, kind) && i < hi
  {
    hide Is;
  }

  /** A block is found exactly when its first header has a closing line behind it
      and an opening line in between, and these are the lines found. */
  lemma BlockExact(lines: Lines, name: string, opening: nat, close: nat)
    ensures Block(lines, name) == Some((opening, close)) <==>
      exists header: nat ::
        && FirstLine(lines, 0, header, HeaderOf(name)) && FirstLine(lines, header + 1, close, Closing)
        && FirstLine(lines, header, opening, OpeningLine) && opening < close
  {
    hide Is, First, FirstLine;
    var header := First(lines, 0, |lines|, HeaderOf(name));
    forall h: nat ensures FirstLine(lines, 0, h, HeaderOf(name)) <==> h == header && h < |lines| {
      FirstIff(lines, 0, |lines|, HeaderOf(name), h);
      FirstLineInside(lines, 0, h, HeaderOf(name));
    }
    if header < |lines| {
      FirstIff(lines, header + 1, |lines|, Closing, close);
      FirstLineInside(lines, header + 1, close, Closing);
      var end := First(lines, header + 1, |lines|, Closing);
      FirstIff(lines, header, end, OpeningLine, opening);
    }
  }

  lemma FirstLineInside(lines: Lines, lo: nat, i: nat, kind: Kind)
    ensures FirstLine(lines, lo, i, kind) ==> i < |lines|
  {
  }
}
