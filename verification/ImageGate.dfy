/** scripts/check_container_image_pins.py, validate_repository: the offline gate
    from discovered image uses and the catalogue to a list of violations. */
module ImageGate {
  import opened Wrappers
  import opened ImageReferences
  import opened ImageCatalog
  import Orders

  datatype Use = Use(reference: string, source: string, local: bool, service: Option<string>,
                     buildContext: Option<string>, buildError: Option<string>, pullPolicyBuild: bool)

  datatype Finding =
    | Discovered(message: string) | CatalogueRefused
    | Unreadable(use: Use, error: RefError) | Unpinned(use: Use) | NoCatalogue(use: Use)
    | NotInCatalogue(use: Use) | Divergent(use: Use)
    | BuildInvalid(use: Use) | NotAllowlisted(use: Use) | AllowlistMismatch(use: Use)
    | ContextMismatch(use: Use) | PullPolicy(use: Use) | LocalOrphan(reference: string)
    | EntryOrphan(tag: string) | Undiscovered(tag: string, source: string) | Undeclared(tag: string, source: string)

  /** A dictionary lookup: the last entry with the key. */
  function Lookup<V>(fields: seq<(string, V)>, key: string): (r: Option<V>)
    ensures r.Some? ==> (key, r.value) in fields
    ensures r.None? ==> forall f :: f in fields ==> f.0 != key
  {
    if fields == [] then None
    else
      var k := |fields| - 1;
      assert fields == fields[..k] + [fields[k]];
      if fields[k].0 == key then Some(fields[k].1) else Lookup(fields[..k], key)
  }

  /** entries_by_tag. */
  function ByTag(images: seq<(string, ImageEntry)>, tag: string): (r: Option<ImageEntry>)
    ensures r.Some? ==> r.value.tag == tag && exists f :: f in images && f.1 == r.value
    ensures r.None? ==> forall f :: f in images ==> f.1.tag != tag
  {
    if images == [] then None
    else
      var k := |images| - 1;
      assert images == images[..k] + [images[k]];
      if images[k].1.tag == tag then Some(images[k].1) else ByTag(images[..k], tag)
  }

  function When(condition: bool, finding: Finding): seq<Finding> {
    if condition then [finding] else []
  }

  // ---- The findings of one use or entry -----------------------------------

  /** Without a catalogue every non-local use is a finding. */
  function UncataloguedFindings(u: Use): seq<Finding> {
    var parts := ReferenceParts(u.reference);
    match parts.error
    case Some(e) => [Unreadable(u, e)]
    case None => if parts.digest.None? then [Unpinned(u)] else [NoCatalogue(u)]
  }

  function LocalFindings(c: Catalog, u: Use): seq<Finding> {
    When(u.buildError.Some?, BuildInvalid(u)) +
    match Lookup(c.local, u.reference)
    case None => [NotAllowlisted(u)]
    case Some(l) =>
      When(u.source != l.compose || u.service != Some(l.service), AllowlistMismatch(u))
      + When(u.buildError.None? && u.buildContext != Some(l.context), ContextMismatch(u))
      + When(!u.pullPolicyBuild, PullPolicy(u))
  }

  function PinFindings(c: Catalog, u: Use): seq<Finding> {
    var parts := ReferenceParts(u.reference);
    match parts.error
    case Some(e) => [Unreadable(u, e)]
    case None =>
      match ByTag(c.images, parts.tag.value)
      case None => [NotInCatalogue(u)]
      case Some(e) =>
        if parts.digest.None? then [Unpinned(u)] else When(parts.digest.value != e.digest, Divergent(u))
  }

  function EntryFindings(e: ImageEntry, actual: set<string>): seq<Finding> {
    var declared := Declared(e);
    When(actual == {}, EntryOrphan(e.tag))
    + UndiscoveredAll(e.tag, Orders.Sorted(declared - actual)) + UndeclaredAll(e.tag, Orders.Sorted(actual - declared))
  }

  function UndiscoveredAll(tag: string, sources: seq<string>): (r: seq<Finding>)
    ensures |r| == |sources|
  {
    seq(|sources|, i requires 0 <= i < |sources| => Undiscovered(tag, sources[i]))
  }

  function UndeclaredAll(tag: string, sources: seq<string>): (r: seq<Finding>)
    ensures |r| == |sources|
  {
    seq(|sources|, i requires 0 <= i < |sources| => Undeclared(tag, sources[i]))
  }

  // ---- The findings of all uses and entries -------------------------------

  datatype Pass = Uncatalogued | Local(catalog: Catalog) | Pins(catalog: Catalog)

  function FindingsOf(pass: Pass, u: Use): seq<Finding> {
    match pass
    case Uncatalogued => if u.local then [] else UncataloguedFindings(u)
    case Local(c) => if u.local then LocalFindings(c, u) else []
    case Pins(c) => if u.local then [] else PinFindings(c, u)
  }

  /** One pass over the uses, in order. */
  function PassFindings(pass: Pass, uses: seq<Use>): seq<Finding> {
    if uses == [] then [] else
      PassFindings(pass, uses[..|uses| - 1]) + FindingsOf(pass, uses[|uses| - 1])
  }

  /** local_seen: allowlisted local uses by reference, file and service. */
  function Seen(c: Catalog, uses: seq<Use>): set<(string, string, string)> {
    set u | u in uses && u.local && Lookup(c.local, u.reference).Some? :: Sighting(u)
  }

  function Sighting(u: Use): (string, string, string) {
    (u.reference, u.source, if u.service.Some? then u.service.value else "")
  }

  function LocalOrphans(local: seq<(string, LocalEntry)>, seen: set<(string, string, string)>): seq<Finding> {
    if local == [] then [] else
      var (reference, l) := local[|local| - 1];
      LocalOrphans(local[..|local| - 1], seen)
      + When((reference, l.compose, l.service) !in seen, LocalOrphan(reference))
  }

  predicate Names(u: Use, tag: string) {
    !u.local && ReferenceParts(u.reference).error.None? && ReferenceParts(u.reference).tag == Some(tag)
  }

  /** The files whose non-local uses name a tag. */
  function Consumers(uses: seq<Use>, tag: string): set<string> {
    set u | u in uses && Names(u, tag) :: u.source
  }

  function AllEntries(images: seq<(string, ImageEntry)>, uses: seq<Use>): seq<Finding> {
    if images == [] then [] else
      var e := images[|images| - 1].1;
      AllEntries(images[..|images| - 1], uses) + EntryFindings(e, Consumers(uses, e.tag))
  }

  function Messages(messages: seq<string>): (r: seq<Finding>)
    ensures |r| == |messages|
  {
    seq(|messages|, i requires 0 <= i < |messages| => Discovered(messages[i]))
  }

  /** Every finding, before duplicates are dropped. */
  function AllFindings(catalog: Option<Catalog>, uses: seq<Use>, discovery: seq<string>): seq<Finding> {
    match catalog
    case None => Messages(discovery) + [CatalogueRefused] + PassFindings(Uncatalogued, uses)
    case Some(c) =>
      Messages(discovery)
      + PassFindings(Local(c), uses) + LocalOrphans(c.local, Seen(c, uses))
      + PassFindings(Pins(c), uses) + AllEntries(c.images, uses)
  }

  /** The first occurrence of each. */
  function Deduplicated(findings: seq<Finding>): (r: seq<Finding>)
    ensures forall f :: f in r <==> f in findings
    ensures forall i, j :: 0 <= i < j < |r| ==> r[i] != r[j]
  {
    if findings == [] then [] else
      var k := |findings| - 1;
      assert findings == findings[..k] + [findings[k]];
      var r := Deduplicated(findings[..k]);
      if findings[k] in r then r else r + [findings[k]]
  }

  // ---- The gate -----------------------------------------------------------

  method Deduplicate(findings: seq<Finding>) returns (r: seq<Finding>)
    ensures r == Deduplicated(findings)
  {
    r := [];
    for k := 0 to |findings|
      invariant r == Deduplicated(findings[..k])
    {
      assert findings[..k + 1][..k] == findings[..k];
      if findings[k] !in r {
        r := r + [findings[k]];
      }
    }
    assert findings[..|findings|] == findings;
  }

  method RunPass(pass: Pass, uses: seq<Use>, before: seq<Finding>) returns (errors: seq<Finding>)
    ensures errors == before + PassFindings(pass, uses)
  {
    hide PassFindings, FindingsOf;
    errors := before;
    PassNone(pass, uses);
    for k := 0 to |uses|
      invariant errors == before + PassFindings(pass, uses[..k])
    {
      PassNext(pass, uses, k);
      errors := errors + FindingsOf(pass, uses[k]);
    }
    assert uses[..|uses|] == uses;
  }

  lemma PassNone(pass: Pass, uses: seq<Use>)
    ensures PassFindings(pass, uses[..0]) == []
  {
  }

  lemma PassNext(pass: Pass, uses: seq<Use>, k: nat)
    requires k < |uses|
    ensures PassFindings(pass, uses[..k + 1]) == PassFindings(pass, uses[..k]) + FindingsOf(pass, uses[k])
  {
    hide FindingsOf;
    assert uses[..k + 1][..k] == uses[..k];
  }

  method CheckLocal(c: Catalog, uses: seq<Use>, before: seq<Finding>) returns (errors: seq<Finding>)
    ensures errors == before + PassFindings(Local(c), uses) + LocalOrphans(c.local, Seen(c, uses))
  {
    hide PassFindings, FindingsOf, Seen, LocalOrphans, Lookup;
    errors := before;
    var seen: set<(string, string, string)> := {};
    PassNone(Local(c), uses);
    SeenNone(c, uses);
    for k := 0 to |uses|
      invariant errors == before + PassFindings(Local(c), uses[..k])
      invariant seen == Seen(c, uses[..k])
    {
      var u := uses[k];
      PassNext(Local(c), uses, k);
      SeenNext(c, uses, k);
      errors := errors + FindingsOf(Local(c), u);
      if u.local && Lookup(c.local, u.reference).Some? {
        seen := seen + {Sighting(u)};
      }
    }
    assert uses[..|uses|] == uses;
    var orphans := FindOrphans(c.local, seen);
    errors := errors + orphans;
  }

  method FindOrphans(local: seq<(string, LocalEntry)>, seen: set<(string, string, string)>) returns (errors: seq<Finding>)
    ensures errors == LocalOrphans(local, seen)
  {
    errors := [];
    for k := 0 to |local|
      invariant errors == LocalOrphans(local[..k], seen)
    {
      assert local[..k + 1][..k] == local[..k];
      var (reference, l) := local[k];
      errors := errors + When((reference, l.compose, l.service) !in seen, LocalOrphan(reference));
    }
    assert local[..|local|] == local;
  }

  lemma SeenNone(c: Catalog, uses: seq<Use>)
    ensures Seen(c, uses[..0]) == {}
  {
  }

  lemma SeenNext(c: Catalog, uses: seq<Use>, k: nat)
    requires k < |uses|
    ensures Seen(c, uses[..k + 1])
         == Seen(c, uses[..k])
            + if uses[k].local && Lookup(c.local, uses[k].reference).Some? then {Sighting(uses[k])} else {}
  {
    hide Lookup, Sighting;
    assert uses[..k + 1] == uses[..k] + [uses[k]];
    assert forall v :: v in uses[..k + 1] <==> v in uses[..k] || v == uses[k];
  }

  method CheckPins(c: Catalog, uses: seq<Use>, before: seq<Finding>) returns (errors: seq<Finding>)
    ensures errors == before + PassFindings(Pins(c), uses) + AllEntries(c.images, uses)
  {
    hide PassFindings, FindingsOf, Consumers, EntryFindings, ReferenceParts, AllEntries;
    errors := before;
    var actual: map<string, set<string>> := map f | f in c.images :: f.1.tag := {};
    PassNone(Pins(c), uses);
    ConsumersNone(uses);
    for k := 0 to |uses|
      invariant errors == before + PassFindings(Pins(c), uses[..k])
      invariant forall f :: f in c.images ==> f.1.tag in actual
      invariant forall t :: t in actual ==> actual[t] == Consumers(uses[..k], t)
    {
      var u := uses[k];
      PassNext(Pins(c), uses, k);
      ConsumersNext(uses, k);
      errors := errors + FindingsOf(Pins(c), u);
      var parts := ReferenceParts(u.reference);
      if !u.local && parts.error.None? && parts.tag.value in actual {
        actual := actual[parts.tag.value := actual[parts.tag.value] + {u.source}];
      }
    }
    assert uses[..|uses|] == uses;
    var rest := CheckEntries(c.images, uses, actual);
    errors := errors + rest;
  }

  method CheckEntries(images: seq<(string, ImageEntry)>, uses: seq<Use>, actual: map<string, set<string>>)
      returns (errors: seq<Finding>)
    requires forall f :: f in images ==> f.1.tag in actual
    requires forall t :: t in actual ==> actual[t] == Consumers(uses, t)
    ensures errors == AllEntries(images, uses)
  {
    hide Consumers, EntryFindings;
    errors := [];
    for k := 0 to |images|
      invariant errors == AllEntries(images[..k], uses)
    {
      assert images[..k + 1][..k] == images[..k] && images[k] in images;
      var e := images[k].1;
      errors := errors + EntryFindings(e, actual[e.tag]);
    }
    assert images[..|images|] == images;
  }

  lemma ConsumersNone(uses: seq<Use>)
    ensures forall t :: Consumers(uses[..0], t) == {}
  {
  }

  lemma ConsumersNext(uses: seq<Use>, k: nat)
    requires k < |uses|
    ensures forall t ::
      Consumers(uses[..k + 1], t) == Consumers(uses[..k], t) + if Names(uses[k], t) then {uses[k].source} else {}
  {
    hide Names;
    assert uses[..k + 1] == uses[..k] + [uses[k]];
    assert forall v :: v in uses[..k + 1] <==> v in uses[..k] || v == uses[k];
  }

  // ---- What an empty report means -----------------------------------------

  /** A local use the allowlist covers. */
  predicate Allowed(u: Use, reference: string, l: LocalEntry) {
    && u.local && u.reference == reference && u.source == l.compose && u.service == Some(l.service)
    && u.buildError.None? && u.buildContext == Some(l.context) && u.pullPolicyBuild
  }

  /** The files that use exactly this reference. */
  function UsersOf(uses: seq<Use>, reference: string): set<string> {
    set u | u in uses && !u.local && u.reference == reference :: u.source
  }

  /** Each local use is an allowlisted one and each allowlisted one is used. */
  ghost predicate CleanLocal(c: Catalog, uses: seq<Use>) {
    && (forall u :: u in uses && u.local ==> exists l :: l in c.local && Allowed(u, l.0, l.1))
    && (forall l :: l in c.local ==> exists u :: u in uses && Allowed(u, l.0, l.1))
  }

  ghost predicate Catalogued(c: Catalog, reference: string) {
    exists f :: f in c.images && f.1.reference == reference
  }

  /** Each other use is, character for character, a catalogued reference, and
      each entry declares exactly the files using it. */
  ghost predicate CleanPins(c: Catalog, uses: seq<Use>) {
    && (forall u :: u in uses && !u.local ==> Catalogued(c, u.reference))
    && (forall f :: f in c.images ==> Declared(f.1) == UsersOf(uses, f.1.reference))
  }

  function Declared(e: ImageEntry): set<string> {
    set s | s in e.consumers
  }

  lemma {:induction false} PassEmptyIff(pass: Pass, uses: seq<Use>)
    ensures PassFindings(pass, uses) == [] <==> forall u :: u in uses ==> FindingsOf(pass, u) == []
    decreases |uses|
  {
    hide FindingsOf;
    if uses != [] {
      var k := |uses| - 1;
      PassEmptyIff(pass, uses[..k]);
      assert uses == uses[..k] + [uses[k]];
    }
  }

  lemma {:induction false} OrphansEmptyIff(local: seq<(string, LocalEntry)>, seen: set<(string, string, string)>)
    ensures LocalOrphans(local, seen) == [] <==> forall l :: l in local ==> (l.0, l.1.compose, l.1.service) in seen
    decreases |local|
  {
    if local != [] {
      var k := |local| - 1;
      OrphansEmptyIff(local[..k], seen);
      assert local == local[..k] + [local[k]];
    }
  }

  lemma EntryEmptyIff(e: ImageEntry, actual: set<string>)
    ensures EntryFindings(e, actual) == [] <==> actual != {} && actual == Declared(e)
  {
    var declared := Declared(e);
    SortedEmptyIff(declared - actual);
    SortedEmptyIff(actual - declared);
    assert declared - actual == {} && actual - declared == {} <==> declared == actual;
  }

  lemma SortedEmptyIff(names: set<string>)
    ensures Orders.Sorted(names) == [] <==> names == {}
  {
    var sorted := Orders.Sorted(names);
    assert Orders.SortedListing(Orders.NameLess, sorted, names);
    if sorted == [] { assert forall x :: x in names <==> x in sorted; }
    if sorted != [] { assert sorted[0] in sorted; }
  }

  lemma {:induction false} EntriesEmptyIff(images: seq<(string, ImageEntry)>, uses: seq<Use>)
    ensures AllEntries(images, uses) == []
      <==> forall f :: f in images ==> EntryFindings(f.1, Consumers(uses, f.1.tag)) == []
    decreases |images|
  {
    hide EntryFindings, Consumers;
    if images != [] {
      var k := |images| - 1;
      EntriesEmptyIff(images[..k], uses);
      assert images == images[..k] + [images[k]];
    }
  }

  lemma LocalEmptyIff(c: Catalog, u: Use)
    requires u.local
    ensures LocalFindings(c, u) == []
      <==> Lookup(c.local, u.reference).Some? && Allowed(u, u.reference, Lookup(c.local, u.reference).value)
  {
    hide Lookup;
  }

  lemma LookupIs<V>(fields: seq<(string, V)>, f: (string, V))
    requires KeysDistinct(fields) && f in fields
    ensures Lookup(fields, f.0) == Some(f.1)
  {
    hide Lookup;
    var r := Lookup(fields, f.0);
    var i :| 0 <= i < |fields| && fields[i] == f;
    assert r.Some?;
    var j :| 0 <= j < |fields| && fields[j] == (f.0, r.value);
    assert i == j;
  }

  lemma ByTagIs(images: seq<(string, ImageEntry)>, f: (string, ImageEntry))
    requires TagsDistinct(images) && f in images
    ensures ByTag(images, f.1.tag) == Some(f.1)
  {
    hide ByTag;
    var r := ByTag(images, f.1.tag);
    var i :| 0 <= i < |images| && images[i] == f;
    assert r.Some?;
    var g :| g in images && g.1 == r.value;
    var j :| 0 <= j < |images| && images[j] == g;
    assert i == j;
  }

  /** A use passes the pin check exactly when it is, as text, a catalogued reference. */
  lemma PinEmptyIff(c: Catalog, u: Use)
    requires Trusted(c)
    ensures PinFindings(c, u) == [] <==> Catalogued(c, u.reference)
  {
    hide ReferenceParts, ByTag, TagsDistinct, KeysDistinct, TagOk, IsDigest;
    var parts := ReferenceParts(u.reference);
    if PinFindings(c, u) == [] {
      var e := ByTag(c.images, parts.tag.value).value;
      var f :| f in c.images && f.1 == e;
      PartsExact(u.reference, e.tag, Some(e.digest));
      PinnedEntry(c, f);
    }
    if f :| f in c.images && f.1.reference == u.reference {
      PinnedEntry(c, f);
      ByTagIs(c.images, f);
      PartsExact(u.reference, f.1.tag, Some(f.1.digest));
    }
  }

  lemma PinnedEntry(c: Catalog, f: (string, ImageEntry))
    requires Trusted(c) && f in c.images
    ensures Pinned(f.1)
  {
    hide Pinned, TagsDistinct, KeysDistinct;
    var i :| 0 <= i < |c.images| && c.images[i] == f;
  }

  lemma LocalCleanIff(c: Catalog, uses: seq<Use>)
    requires Trusted(c)
    ensures PassFindings(Local(c), uses) == [] && LocalOrphans(c.local, Seen(c, uses)) == [] <==> CleanLocal(c, uses)
  {
    hide PassFindings, LocalOrphans, Lookup, LocalFindings, Trusted, Pinned, TagsDistinct;
    PassEmptyIff(Local(c), uses);
    OrphansEmptyIff(c.local, Seen(c, uses));
    assert KeysDistinct(c.local) by { TrustedLocal(c); }
    forall u | u in uses && u.local
      ensures FindingsOf(Local(c), u) == [] <==> exists l :: l in c.local && Allowed(u, l.0, l.1) {
      LocalUseIff(c, u);
    }
    forall l | l in c.local && CleanLocalUses(c, uses)
      ensures (l.0, l.1.compose, l.1.service) in Seen(c, uses) <==> exists u :: u in uses && Allowed(u, l.0, l.1) {
      SeenIff(c, uses, l);
    }
  }

  lemma TrustedLocal(c: Catalog)
    requires Trusted(c)
    ensures KeysDistinct(c.local)
  {
    hide Pinned, TagsDistinct, KeysDistinct;
  }

  ghost predicate CleanLocalUses(c: Catalog, uses: seq<Use>) {
    forall u :: u in uses && u.local ==> exists l :: l in c.local && Allowed(u, l.0, l.1)
  }

  lemma LocalUseIff(c: Catalog, u: Use)
    requires KeysDistinct(c.local) && u.local
    ensures LocalFindings(c, u) == [] <==> exists l :: l in c.local && Allowed(u, l.0, l.1)
  {
    hide LocalFindings, KeysDistinct, Lookup;
    LocalEmptyIff(c, u);
    if l :| l in c.local && Allowed(u, l.0, l.1) { LookupIs(c.local, l); }
    if Lookup(c.local, u.reference).Some? {
      assert (u.reference, Lookup(c.local, u.reference).value) in c.local;
    }
  }

  lemma SeenIff(c: Catalog, uses: seq<Use>, l: (string, LocalEntry))
    requires KeysDistinct(c.local) && l in c.local && CleanLocalUses(c, uses)
    ensures (l.0, l.1.compose, l.1.service) in Seen(c, uses) <==> exists u :: u in uses && Allowed(u, l.0, l.1)
  {
    hide KeysDistinct, Lookup;
    LookupIs(c.local, l);
    if (l.0, l.1.compose, l.1.service) in Seen(c, uses) {
      var u :| u in uses && u.local && Lookup(c.local, u.reference).Some? && Sighting(u) == (l.0, l.1.compose, l.1.service);
      var k :| k in c.local && Allowed(u, k.0, k.1);
      LookupIs(c.local, k);
      assert Allowed(u, l.0, l.1);
    }
    if u :| u in uses && Allowed(u, l.0, l.1) {
      assert Sighting(u) == (l.0, l.1.compose, l.1.service);
    }
  }

  lemma NamesIff(c: Catalog, u: Use, f: (string, ImageEntry))
    requires Trusted(c) && f in c.images && !u.local && Catalogued(c, u.reference)
    ensures Names(u, f.1.tag) <==> u.reference == f.1.reference
  {
    hide ReferenceParts, KeysDistinct, TagOk, IsDigest;
    var g :| g in c.images && g.1.reference == u.reference;
    PinnedEntry(c, f);
    PinnedEntry(c, g);
    PartsExact(u.reference, g.1.tag, Some(g.1.digest));
    var i :| 0 <= i < |c.images| && c.images[i] == f;
    var j :| 0 <= j < |c.images| && c.images[j] == g;
  }

  lemma PinsCleanIff(c: Catalog, uses: seq<Use>)
    requires Trusted(c)
    ensures PassFindings(Pins(c), uses) == [] && AllEntries(c.images, uses) == [] <==> CleanPins(c, uses)
  {
    hide PassFindings, AllEntries, PinFindings, EntryFindings, Trusted, Names, Catalogued;
    PassEmptyIff(Pins(c), uses);
    EntriesEmptyIff(c.images, uses);
    forall u ensures PinFindings(c, u) == [] <==> Catalogued(c, u.reference) { PinEmptyIff(c, u); }
    if forall u :: u in uses && !u.local ==> Catalogued(c, u.reference) {
      forall f | f in c.images
        ensures EntryFindings(f.1, Consumers(uses, f.1.tag)) == [] <==> Declared(f.1) == UsersOf(uses, f.1.reference) {
        EntryCleanIff(c, uses, f);
      }
    }
  }

  lemma EntryCleanIff(c: Catalog, uses: seq<Use>, f: (string, ImageEntry))
    requires Trusted(c) && f in c.images && forall u :: u in uses && !u.local ==> Catalogued(c, u.reference)
    ensures EntryFindings(f.1, Consumers(uses, f.1.tag)) == [] <==> Declared(f.1) == UsersOf(uses, f.1.reference)
  {
    hide EntryFindings, Names, Trusted, Catalogued;
    EntryEmptyIff(f.1, Consumers(uses, f.1.tag));
    PinnedEntry(c, f);
    assert f.1.consumers[0] in Declared(f.1);
    forall u | u in uses ensures Names(u, f.1.tag) <==> !u.local && u.reference == f.1.reference {
      if u.local { assert !Names(u, f.1.tag) by { LocalNamesNothing(u, f.1.tag); } } else { NamesIff(c, u, f); }
    }
    assert Consumers(uses, f.1.tag) == UsersOf(uses, f.1.reference);
  }

  lemma LocalNamesNothing(u: Use, tag: string)
    requires u.local
    ensures !Names(u, tag)
  {
  }

  /** The report is empty exactly when discovery found nothing to object to, the
      catalogue loads, and the repository and the catalogue agree. */
  method ValidateRepository(uses: seq<Use>, discovery: seq<string>, root: Value, rules: Rules)
      returns (errors: seq<Finding>, catalog: Option<Catalog>)
    ensures catalog.Some? ==> Reads(root, rules, catalog.value)
    ensures catalog.None? ==> forall c :: !Reads(root, rules, c)
    ensures errors == Deduplicated(AllFindings(catalog, uses, discovery))
    ensures errors == []
      <==> discovery == [] && catalog.Some? && CleanLocal(catalog.value, uses) && CleanPins(catalog.value, uses)
  {
    hide Reads, PassFindings, LocalOrphans, AllEntries, CleanLocal, CleanPins;
    catalog := LoadCatalog(root, rules);
    var found := Messages(discovery);
    if catalog.None? {
      found := RunPass(Uncatalogued, uses, found + [CatalogueRefused]);
    } else {
      found := CheckLocal(catalog.value, uses, found);
      found := CheckPins(catalog.value, uses, found);
      ReadingTrusted(root, rules, catalog.value);
      LocalCleanIff(catalog.value, uses);
      PinsCleanIff(catalog.value, uses);
    }
    assert found == AllFindings(catalog, uses, discovery);
    errors := Deduplicate(found);
    assert found == [] || found[0] in errors;
    assert errors == [] || errors[0] in found;
  }

  /** In an accepted repository every file that uses an image is declared under
      the one entry whose tag and digest it uses. */
  lemma AcceptedUse(root: Value, rules: Rules, c: Catalog, uses: seq<Use>, u: Use) returns (f: (string, ImageEntry))
    requires Reads(root, rules, c) && CleanPins(c, uses) && u in uses && !u.local
    ensures f in c.images && u.reference == f.1.tag + "@" + f.1.digest && u.source in f.1.consumers
    ensures forall g :: g in c.images && g.1.tag == f.1.tag ==> g == f
  {
    hide Reads, TagOk, IsDigest, KeysDistinct;
    ReadingTrusted(root, rules, c);
    f :| f in c.images && f.1.reference == u.reference;
    PinnedEntry(c, f);
    assert u.source in UsersOf(uses, f.1.reference) && u.source in Declared(f.1);
    var i :| 0 <= i < |c.images| && c.images[i] == f;
    forall g | g in c.images && g.1.tag == f.1.tag ensures g == f {
      var j :| 0 <= j < |c.images| && c.images[j] == g;
    }
  }
}
