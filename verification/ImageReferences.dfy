/** scripts/check_container_image_pins.py, _reference_parts and the helpers the
    catalogue uses on references: which strings are pinned image references. */
module ImageReferences {
  import opened PythonStrings
  import opened Wrappers

  // ---- Python's string operations -----------------------------------------

  function Last(s: string, c: char): (i: Option<nat>)
    ensures i.None? <==> c !in s
    ensures i.Some? ==> i.value < |s| && s[i.value] == c && c !in s[i.value + 1..]
  {
    if s == "" then None
    else if s[|s| - 1] == c then Some(|s| - 1)
    else
      assert s == s[..|s| - 1] + [s[|s| - 1]];
      var i := Last(s[..|s| - 1], c);
      assert i.Some? ==> s[i.value + 1..] == s[..|s| - 1][i.value + 1..] + [s[|s| - 1]];
      i
  }

  /** rsplit(c, 1)[0]. */
  function BeforeLast(s: string, c: char): string {
    if Last(s, c).Some? then s[..Last(s, c).value] else s
  }

  /** rsplit(c, 1)[-1]. */
  function AfterLast(s: string, c: char): string {
    if Last(s, c).Some? then s[Last(s, c).value + 1..] else s
  }

  /** split(c, 1)[0]. */
  function BeforeFirst(s: string, c: char): string {
    if s == "" || s[0] == c then "" else [s[0]] + BeforeFirst(s[1..], c)
  }

  function Occurrences(s: string, c: char): nat {
    if s == "" then 0 else Occurrences(s[..|s| - 1], c) + if s[|s| - 1] == c then 1 else 0
  }

  // ---- References ---------------------------------------------------------

  predicate HexDigit(c: char) { '0' <= c <= '9' || 'a' <= c <= 'f' }

  predicate IsDigest(s: string) {
    |s| == 71 && s[..7] == "sha256:" && forall i :: 7 <= i < 71 ==> HexDigit(s[i])
  }

  predicate HasReadableTag(reference: string) {
    var final := AfterLast(reference, '/');
    ':' in final && final[|final| - 1] != ':'
  }

  function CanonicalRegistry(tag: string): string {
    var first := BeforeFirst(BeforeLast(tag, ':'), '/');
    if '.' in first || ':' in first || first == "localhost" then first else "registry-1.docker.io"
  }

  datatype RefError = NotAToken | Variable | ManyDigests | NoReadableTag | BadDigest

  datatype Parts = Parts(tag: Option<string>, digest: Option<string>, error: Option<RefError>)

  function ReferenceParts(reference: string): (r: Parts)
    ensures r.error.None? ==> r.tag.Some?
  {
    if reference == "" || exists c :: c in reference && Space(c) then Parts(None, None, Some(NotAToken))
    else if '$' in reference then Parts(None, None, Some(Variable))
    else if Occurrences(reference, '@') > 1 then Parts(None, None, Some(ManyDigests))
    else
      var pinned := '@' in reference;
      var tag := if pinned then BeforeLast(reference, '@') else reference;
      var digest := if pinned then Some(AfterLast(reference, '@')) else None;
      if !HasReadableTag(tag) then Parts(None, digest, Some(NoReadableTag))
      else if digest.Some? && !IsDigest(digest.value) then Parts(Some(tag), digest, Some(BadDigest))
      else Parts(Some(tag), digest, None)
  }

  // ---- The references that are accepted -----------------------------------

  /** The text of a reference. */
  function Printed(tag: string, digest: Option<string>): string {
    match digest
    case None => tag
    case Some(d) => tag + "@" + d
  }

  predicate TagOk(tag: string) {
    HasReadableTag(tag) && forall c :: c in tag ==> !Space(c) && c != '$' && c != '@'
  }

  lemma {:induction false} NoOccurrences(s: string, c: char)
    ensures Occurrences(s, c) == 0 <==> c !in s
    decreases |s|
  {
    if s != "" {
      NoOccurrences(s[..|s| - 1], c);
      assert s == s[..|s| - 1] + [s[|s| - 1]];
    }
  }

  lemma {:induction false} OccurrencesConcat(s: string, t: string, c: char)
    ensures Occurrences(s + t, c) == Occurrences(s, c) + Occurrences(t, c)
    decreases |t|
  {
    if t == "" {
      assert s + t == s;
    } else {
      OccurrencesConcat(s, t[..|t| - 1], c);
      assert (s + t)[..|s + t| - 1] == s + t[..|t| - 1];
    }
  }

  lemma SplitLast(s: string, c: char)
    requires c in s
    ensures s == BeforeLast(s, c) + [c] + AfterLast(s, c) && c !in AfterLast(s, c)
    ensures Occurrences(s, c) <= 1 ==> c !in BeforeLast(s, c)
  {
    hide Occurrences;
    var b, a := BeforeLast(s, c), AfterLast(s, c);
    assert s == b + [c] + a;
    hide BeforeLast, AfterLast, Last;
    OccurrencesAround(b, a, c);
    NoOccurrences(b, c);
  }

  lemma OccurrencesAround(b: string, a: string, c: char)
    ensures Occurrences(b + [c] + a, c) == Occurrences(b, c) + 1 + Occurrences(a, c)
  {
    OccurrencesConcat(b + [c], a, c);
    OccurrencesConcat(b, [c], c);
    OneOccurrence(c);
  }

  lemma OneOccurrence(c: char)
    ensures Occurrences([c], c) == 1
  {
    NoOccurrences("", c);
  }

  lemma LastOfPrinted(tag: string, digest: string, c: char)
    requires c !in digest
    ensures var s := tag + [c] + digest; BeforeLast(s, c) == tag && AfterLast(s, c) == digest
    ensures c !in tag ==> Occurrences(tag + [c] + digest, c) == 1
  {
    hide Occurrences;
    var s := tag + [c] + digest;
    assert s[|tag|] == c;
    var i := Last(s, c).value;
    assert i <= |tag| || c in digest;
    OccurrencesAround(tag, digest, c);
    NoOccurrences(tag, c);
    NoOccurrences(digest, c);
  }

  lemma DigestCharacters(d: string, c: char)
    requires IsDigest(d) && c in d
    ensures !Space(c) && c != '$' && c != '@'
  {
    var i :| 0 <= i < |d| && d[i] == c;
    if i < 7 { assert d[..7][i] == c && c in "sha256:"; }
  }

  lemma ReadParts(reference: string, tag: string, digest: Option<string>)
    requires ReferenceParts(reference) == Parts(Some(tag), digest, None)
    ensures reference == Printed(tag, digest) && TagOk(tag) && (digest.Some? ==> IsDigest(digest.value))
  {
    hide HasReadableTag, Occurrences, Last, BeforeLast, AfterLast, IsDigest, Space;
    if '@' in reference { SplitLast(reference, '@'); }
    assert forall c :: c in tag ==> c in reference;
  }

  lemma PrintedParts(tag: string, digest: Option<string>)
    requires TagOk(tag) && (digest.Some? ==> IsDigest(digest.value))
    ensures ReferenceParts(Printed(tag, digest)) == Parts(Some(tag), digest, None)
  {
    hide Occurrences, Last, BeforeLast, AfterLast, IsDigest, Space;
    var reference := Printed(tag, digest);
    PrintedCharacters(tag, digest);
    assert tag != "" by { EmptyUnreadable(); }
    hide HasReadableTag;
    match digest
    case None => NoOccurrences(reference, '@');
    case Some(d) =>
      forall c | c in d ensures c != '@' { DigestCharacters(d, c); }
      LastOfPrinted(tag, d, '@');
      assert '@' in reference;
  }

  lemma PrintedCharacters(tag: string, digest: Option<string>)
    requires TagOk(tag) && (digest.Some? ==> IsDigest(digest.value))
    ensures forall c :: c in Printed(tag, digest) ==> !Space(c) && c != '$' && (c == '@' ==> digest.Some?)
  {
    hide HasReadableTag, IsDigest;
    forall c | c in Printed(tag, digest) ensures !Space(c) && c != '$' && (c == '@' ==> digest.Some?) {
      if digest.Some? && c in digest.value { DigestCharacters(digest.value, c); }
    }
  }

  lemma EmptyUnreadable()
    ensures !HasReadableTag("")
  {
  }

  /** A reference is read without error exactly when it is the printed form of a
      readable tag and, if pinned, a digest; and then these are what is read. */
  lemma PartsExact(reference: string, tag: string, digest: Option<string>)
    ensures ReferenceParts(reference) == Parts(Some(tag), digest, None)
      <==> reference == Printed(tag, digest) && TagOk(tag) && (digest.Some? ==> IsDigest(digest.value))
  {
    hide ReferenceParts, Printed, TagOk, IsDigest;
    if ReferenceParts(reference) == Parts(Some(tag), digest, None) {
      ReadParts(reference, tag, digest);
    } else if TagOk(tag) && (digest.Some? ==> IsDigest(digest.value)) {
      PrintedParts(tag, digest);
    }
  }
}
