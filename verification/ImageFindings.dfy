/** scripts/check_container_image_pins.py, validate_repository: what each finding
    of the gate says, and that it is made exactly when what it says is the case. */
module ImageFindings {
  import opened Wrappers
  import opened ImageReferences
  import opened ImageCatalog
  import opened ImageGate
  import Orders

  /** The reference is this tag, with this digest behind it or none. */
  ghost predicate ReadAs(reference: string, tag: string, digest: Option<string>) {
    reference == Printed(tag, digest) && TagOk(tag) && (digest.Some? ==> IsDigest(digest.value))
  }

  ghost predicate Used(uses: seq<Use>, u: Use, local: bool) { u in uses && u.local == local }

  ghost predicate Entry(c: Catalog, tag: string, e: ImageEntry) {
    e.tag == tag && exists f :: f in c.images && f.1 == e
  }

  ghost predicate Allowed(c: Catalog, u: Use, l: LocalEntry) { (u.reference, l) in c.local }

  /** Some file's use outside the allowlist names the tag, pinned or not. */
  ghost predicate Consumed(uses: seq<Use>, tag: string, source: string) {
    exists u :: Used(uses, u, false) && u.source == source && exists d :: ReadAs(u.reference, tag, d)
  }

  /** A service of an allowlist entry is seen in a use of its reference in its file. */
  ghost predicate SeenIn(uses: seq<Use>, reference: string, l: LocalEntry) {
    exists u :: Used(uses, u, true) && Sees(u, reference, l)
  }

  predicate Sees(u: Use, reference: string, l: LocalEntry) {
    && u.reference == reference && u.source == l.compose
    && (u.service == Some(l.service) || (u.service == None && l.service == ""))
  }

  /** What the finding says is the case, without a catalogue. */
  ghost predicate TrueWithout(f: Finding, uses: seq<Use>) {
    match f
    case CatalogueRefused => true
    case Unreadable(u, e) => Used(uses, u, false) && ReferenceParts(u.reference).error == Some(e)
    case Unpinned(u) => Used(uses, u, false) && exists tag :: ReadAs(u.reference, tag, None)
    case NoCatalogue(u) => Used(uses, u, false) && exists tag, d :: ReadAs(u.reference, tag, Some(d))
    case _ => false
  }

  /** What the finding says is the case, measured against the catalogue. */
  ghost predicate TrueWith(f: Finding, c: Catalog, uses: seq<Use>) {
    match f
    case Unreadable(u, e) => Used(uses, u, false) && ReferenceParts(u.reference).error == Some(e)
    case Unpinned(u) => Used(uses, u, false) && exists tag, e :: ReadAs(u.reference, tag, None) && Entry(c, tag, e)
    case NotInCatalogue(u) => Used(uses, u, false) && exists tag, d :: ReadAs(u.reference, tag, d) && forall e :: !Entry(c, tag, e)
    case Divergent(u) =>
      Used(uses, u, false) && exists tag, d, e :: ReadAs(u.reference, tag, Some(d)) && Entry(c, tag, e) && e.digest != d
    case BuildInvalid(u) => Used(uses, u, true) && u.buildError.Some?
    case NotAllowlisted(u) => Used(uses, u, true) && forall l :: !Allowed(c, u, l)
    case AllowlistMismatch(u) =>
      Used(uses, u, true) && exists l :: Allowed(c, u, l) && (u.source != l.compose || u.service != Some(l.service))
    case ContextMismatch(u) =>
      Used(uses, u, true) && u.buildError.None? && exists l :: Allowed(c, u, l) && u.buildContext != Some(l.context)
    case PullPolicy(u) => Used(uses, u, true) && !u.pullPolicyBuild && exists l :: Allowed(c, u, l)
    case LocalOrphan(reference) => exists l :: (reference, l) in c.local && !SeenIn(uses, reference, l)
    case EntryOrphan(tag) => (exists e :: Entry(c, tag, e)) && forall source :: !Consumed(uses, tag, source)
    case Undiscovered(tag, source) => (exists e :: Entry(c, tag, e) && source in e.consumers) && !Consumed(uses, tag, source)
    case Undeclared(tag, source) => (exists e :: Entry(c, tag, e) && source !in e.consumers) && Consumed(uses, tag, source)
    case _ => false
  }

  ghost predicate Justified(f: Finding, catalog: Option<Catalog>, uses: seq<Use>, discovery: seq<string>) {
    match f
    case Discovered(message) => message in discovery
    case _ => if catalog.None? then TrueWithout(f, uses) else TrueWith(f, catalog.value, uses)
  }

  // ---- References ---------------------------------------------------------

  lemma ReadAsIs(reference: string, tag: string, digest: Option<string>)
    ensures ReadAs(reference, tag, digest) <==> ReferenceParts(reference) == Parts(Some(tag), digest, None)
  {
    PartsExact(reference, tag, digest);
    hide ReferenceParts, Printed, TagOk, IsDigest;
  }

  /** An unreadable reference is the form of no tag, and a readable one of exactly one. */
  lemma Reading(reference: string)
    ensures var p := ReferenceParts(reference);
      forall tag, d :: ReadAs(reference, tag, d) <==> p.error.None? && p.tag == Some(tag) && p.digest == d
    ensures ReferenceParts(reference).error.None? ==> ReferenceParts(reference).tag.Some?
  {
    hide ReadAs;
    forall tag, d ensures ReadAs(reference, tag, d)
      <==> ReferenceParts(reference).error.None? && ReferenceParts(reference).tag == Some(tag) && ReferenceParts(reference).digest == d
    {
      ReadAsIs(reference, tag, d);
    }
  }

  // ---- One pass -----------------------------------------------------------

  lemma {:induction false} PassMembers(pass: Pass, uses: seq<Use>, f: Finding)
    ensures f in PassFindings(pass, uses) <==> exists u :: u in uses && f in FindingsOf(pass, u)
    decreases |uses|
  {
    hide FindingsOf;
    if uses != [] {
      var k := |uses| - 1;
      PassMembers(pass, uses[..k], f);
      assert uses == uses[..k] + [uses[k]];
    }
  }

  lemma Without(u: Use, f: Finding)
    requires !u.local
    ensures f in FindingsOf(Uncatalogued, u) <==> !f.CatalogueRefused? && TrueWithout(f, [u])
  {
    Reading(u.reference);
    SomeReading(u.reference);
    hide ReferenceParts, ReadAs;
  }

  lemma SomeReading(reference: string)
    ensures var p := ReferenceParts(reference); p.error.None? ==> p.tag.Some? && ReadAs(reference, p.tag.value, p.digest)
  {
    Reading(reference);
    hide ReferenceParts, ReadAs;
  }

  lemma ByTagEntry(c: Catalog, tag: string)
    requires TagsDistinct(c.images)
    ensures match ByTag(c.images, tag)
      case None => forall e :: !Entry(c, tag, e)
      case Some(e) => Entry(c, tag, e) && forall e' :: Entry(c, tag, e') ==> e' == e
  {
    hide ByTag;
    if ByTag(c.images, tag).Some? {
      var e := ByTag(c.images, tag).value;
      forall e' | Entry(c, tag, e') ensures e' == e {
        var f, f' :| f in c.images && f.1 == e && f' in c.images && f'.1 == e';
        var i :| 0 <= i < |c.images| && c.images[i] == f;
        var j :| 0 <= j < |c.images| && c.images[j] == f';
      }
    } else {
      forall e ensures !Entry(c, tag, e) {}
    }
  }

  lemma PinnedUse(c: Catalog, u: Use, f: Finding)
    requires !u.local && TagsDistinct(c.images)
    ensures f in FindingsOf(Pins(c), u) <==> AboutPin(f) && TrueWith(f, c, [u])
  {
    PinMembers(c, u, f);
    var parts := ReferenceParts(u.reference);
    if parts.error.None? {
      ReadableUse(c, u, f, parts.tag.value, parts.digest);
    } else {
      UnreadableUse(c, u, f);
    }
  }

  lemma PinMembers(c: Catalog, u: Use, f: Finding)
    ensures f in PinFindings(c, u) <==>
      var p := ReferenceParts(u.reference);
      match f
      case Unreadable(v, e) => v == u && p.error == Some(e)
      case NotInCatalogue(v) => v == u && p.error.None? && ByTag(c.images, p.tag.value).None?
      case Unpinned(v) => v == u && p.error.None? && ByTag(c.images, p.tag.value).Some? && p.digest.None?
      case Divergent(v) =>
        v == u && p.error.None? && p.digest.Some?
        && ByTag(c.images, p.tag.value).Some? && p.digest.value != ByTag(c.images, p.tag.value).value.digest
      case _ => false
  {
    hide ReferenceParts, ByTag;
  }

  lemma UnreadableUse(c: Catalog, u: Use, f: Finding)
    requires !u.local && ReferenceParts(u.reference).error.Some?
    ensures AboutPin(f) && TrueWith(f, c, [u]) <==> f.Unreadable? && f.use == u && ReferenceParts(u.reference).error == Some(f.error)
  {
    Reading(u.reference);
    hide ReferenceParts, ReadAs, Entry;
  }

  lemma ReadableUse(c: Catalog, u: Use, f: Finding, tag: string, digest: Option<string>)
    requires !u.local && TagsDistinct(c.images) && ReferenceParts(u.reference) == Parts(Some(tag), digest, None)
    ensures AboutPin(f) && TrueWith(f, c, [u]) <==>
      match f
      case NotInCatalogue(v) => v == u && ByTag(c.images, tag).None?
      case Unpinned(v) => v == u && ByTag(c.images, tag).Some? && digest.None?
      case Divergent(v) =>
        v == u && digest.Some? && ByTag(c.images, tag).Some? && digest.value != ByTag(c.images, tag).value.digest
      case _ => false
  {
    ReadOnlyAs(u.reference, tag, digest);
    ByTagEntry(c, tag);
    hide ReferenceParts, ReadAs, Entry, ByTag, TagsDistinct;
    match f
    case Unreadable(_, _) =>
    case Unpinned(v) => if v == u { TrueUnpinned(c, u, tag, digest); }
    case NotInCatalogue(v) => if v == u { TrueUncatalogued(c, u, tag, digest); }
    case Divergent(v) => if v == u { TrueDivergent(c, u, tag, digest); }
    case _ =>
  }

  /** The reference reads in one way only. */
  ghost predicate OnlyAs(reference: string, tag: string, digest: Option<string>) {
    forall t, d :: ReadAs(reference, t, d) <==> t == tag && d == digest
  }

  lemma ReadOnlyAs(reference: string, tag: string, digest: Option<string>)
    requires ReferenceParts(reference) == Parts(Some(tag), digest, None)
    ensures OnlyAs(reference, tag, digest)
  {
    Reading(reference);
    hide ReferenceParts, ReadAs;
  }

  lemma TrueUnpinned(c: Catalog, u: Use, tag: string, digest: Option<string>)
    requires !u.local && OnlyAs(u.reference, tag, digest)
    ensures TrueWith(Unpinned(u), c, [u]) <==> digest == None && exists e :: Entry(c, tag, e)
  {
    hide ReadAs, Entry;
    assert ReadAs(u.reference, tag, digest);
  }

  lemma TrueUncatalogued(c: Catalog, u: Use, tag: string, digest: Option<string>)
    requires !u.local && OnlyAs(u.reference, tag, digest)
    ensures TrueWith(NotInCatalogue(u), c, [u]) <==> forall e :: !Entry(c, tag, e)
  {
    hide ReadAs, Entry;
    assert ReadAs(u.reference, tag, digest);
  }

  lemma TrueDivergent(c: Catalog, u: Use, tag: string, digest: Option<string>)
    requires !u.local && OnlyAs(u.reference, tag, digest)
    ensures TrueWith(Divergent(u), c, [u]) <==> digest.Some? && exists e :: Entry(c, tag, e) && e.digest != digest.value
  {
    hide ReadAs, Entry;
    assert ReadAs(u.reference, tag, digest);
  }

  predicate AboutPin(f: Finding) { f.Unreadable? || f.Unpinned? || f.NotInCatalogue? || f.Divergent? }

  predicate AboutLocal(f: Finding) {
    f.BuildInvalid? || f.NotAllowlisted? || f.AllowlistMismatch? || f.ContextMismatch? || f.PullPolicy?
  }

  lemma AllowedIs(c: Catalog, u: Use)
    requires KeysDistinct(c.local)
    ensures match Lookup(c.local, u.reference)
      case None => forall l :: !Allowed(c, u, l)
      case Some(l) => Allowed(c, u, l) && forall l' :: Allowed(c, u, l') ==> l' == l
  {
    forall l | Allowed(c, u, l) ensures Lookup(c.local, u.reference) == Some(l) { LookupIs(c.local, (u.reference, l)); }
  }

  lemma LocalUse(c: Catalog, u: Use, f: Finding)
    requires u.local && KeysDistinct(c.local)
    ensures f in FindingsOf(Local(c), u) <==> AboutLocal(f) && TrueWith(f, c, [u])
  {
    AllowedIs(c, u);
    LocalMembers(c, u, f);
    LocalTrue(c, u, f, Lookup(c.local, u.reference));
    assert FindingsOf(Local(c), u) == LocalFindings(c, u);
    hide *;
  }

  lemma LocalTrue(c: Catalog, u: Use, f: Finding, l: Option<LocalEntry>)
    requires u.local && forall l' :: Allowed(c, u, l') <==> l == Some(l')
    ensures AboutLocal(f) && TrueWith(f, c, [u]) <==>
      match f
      case BuildInvalid(v) => v == u && u.buildError.Some?
      case NotAllowlisted(v) => v == u && l.None?
      case AllowlistMismatch(v) => v == u && l.Some? && (u.source != l.value.compose || u.service != Some(l.value.service))
      case ContextMismatch(v) => v == u && l.Some? && u.buildError.None? && u.buildContext != Some(l.value.context)
      case PullPolicy(v) => v == u && l.Some? && !u.pullPolicyBuild
      case _ => false
  {
    hide Allowed;
    if l.Some? { assert Allowed(c, u, l.value); }
    match f
    case AllowlistMismatch(_) =>
    case ContextMismatch(_) =>
    case PullPolicy(_) =>
    case _ =>
  }

  lemma LocalMembers(c: Catalog, u: Use, f: Finding)
    ensures f in LocalFindings(c, u) <==>
      var l := Lookup(c.local, u.reference);
      match f
      case BuildInvalid(v) => v == u && u.buildError.Some?
      case NotAllowlisted(v) => v == u && l.None?
      case AllowlistMismatch(v) => v == u && l.Some? && (u.source != l.value.compose || u.service != Some(l.value.service))
      case ContextMismatch(v) => v == u && l.Some? && u.buildError.None? && u.buildContext != Some(l.value.context)
      case PullPolicy(v) => v == u && l.Some? && !u.pullPolicyBuild
      case _ => false
  {
    hide Lookup;
  }

  // ---- Orphans and entries ------------------------------------------------

  lemma SeenIs(c: Catalog, uses: seq<Use>, reference: string, l: LocalEntry)
    requires (reference, l) in c.local
    ensures (reference, l.compose, l.service) in Seen(c, uses) <==> SeenIn(uses, reference, l)
  {
    assert Lookup(c.local, reference).Some?;
    hide Lookup;
    if u :| Used(uses, u, true) && Sees(u, reference, l) {
      assert Sighting(u) == (reference, l.compose, l.service);
    }
    if (reference, l.compose, l.service) in Seen(c, uses) {
      var u :| u in uses && u.local && Lookup(c.local, u.reference).Some? && Sighting(u) == (reference, l.compose, l.service);
      assert Used(uses, u, true) && Sees(u, reference, l);
    }
  }

  lemma {:induction false} OrphanMembers(local: seq<(string, LocalEntry)>, seen: set<(string, string, string)>, f: Finding)
    ensures f in LocalOrphans(local, seen) <==>
      f.LocalOrphan? && exists l :: (f.reference, l) in local && (f.reference, l.compose, l.service) !in seen
    decreases |local|
  {
    if local != [] {
      var k := |local| - 1;
      OrphanMembers(local[..k], seen, f);
      assert local == local[..k] + [local[k]];
      if f.LocalOrphan? && local[k].0 == f.reference { assert (f.reference, local[k].1) in local; }
    }
  }

  lemma OrphansExact(c: Catalog, uses: seq<Use>, f: Finding)
    ensures f in LocalOrphans(c.local, Seen(c, uses)) <==> f.LocalOrphan? && TrueWith(f, c, uses)
  {
    hide LocalOrphans, Seen, SeenIn;
    OrphanMembers(c.local, Seen(c, uses), f);
    if f.LocalOrphan? {
      forall l | (f.reference, l) in c.local
        ensures (f.reference, l.compose, l.service) in Seen(c, uses) <==> SeenIn(uses, f.reference, l)
      {
        SeenIs(c, uses, f.reference, l);
      }
    }
  }

  lemma ConsumersAre(uses: seq<Use>, tag: string, source: string)
    ensures source in Consumers(uses, tag) <==> Consumed(uses, tag, source)
  {
    hide ReferenceParts, ReadAs;
    forall u ensures Names(u, tag) <==> !u.local && exists d :: ReadAs(u.reference, tag, d) {
      Reading(u.reference);
      if Names(u, tag) { assert ReadAs(u.reference, tag, ReferenceParts(u.reference).digest); }
    }
    hide Names;
    if source in Consumers(uses, tag) { var u :| u in uses && Names(u, tag) && u.source == source; }
  }

  lemma EntryMembers(e: ImageEntry, actual: set<string>, f: Finding)
    ensures f in EntryFindings(e, actual) <==>
      match f
      case EntryOrphan(tag) => tag == e.tag && actual == {}
      case Undiscovered(tag, source) => tag == e.tag && source in e.consumers && source !in actual
      case Undeclared(tag, source) => tag == e.tag && source !in e.consumers && source in actual
      case _ => false
  {
    var gone, extra := Orders.Sorted(Declared(e) - actual), Orders.Sorted(actual - Declared(e));
    assert forall s :: s in gone <==> s in Declared(e) - actual;
    assert forall s :: s in extra <==> s in actual - Declared(e);
    UndiscoveredMembers(e.tag, gone, f);
    UndeclaredMembers(e.tag, extra, f);
    hide UndiscoveredAll, UndeclaredAll;
  }

  lemma UndiscoveredMembers(tag: string, sources: seq<string>, f: Finding)
    ensures f in UndiscoveredAll(tag, sources) <==> f.Undiscovered? && f.tag == tag && f.source in sources
  {
    if f.Undiscovered? && f.tag == tag && f.source in sources {
      var i :| 0 <= i < |sources| && sources[i] == f.source;
      assert UndiscoveredAll(tag, sources)[i] == f;
    }
  }

  lemma UndeclaredMembers(tag: string, sources: seq<string>, f: Finding)
    ensures f in UndeclaredAll(tag, sources) <==> f.Undeclared? && f.tag == tag && f.source in sources
  {
    if f.Undeclared? && f.tag == tag && f.source in sources {
      var i :| 0 <= i < |sources| && sources[i] == f.source;
      assert UndeclaredAll(tag, sources)[i] == f;
    }
  }

  lemma {:induction false} EntriesMembers(images: seq<(string, ImageEntry)>, uses: seq<Use>, f: Finding)
    ensures f in AllEntries(images, uses) <==>
      exists g :: g in images && f in EntryFindings(g.1, Consumers(uses, g.1.tag))
    decreases |images|
  {
    hide EntryFindings, Consumers;
    if images != [] {
      var k := |images| - 1;
      EntriesMembers(images[..k], uses, f);
      assert images == images[..k] + [images[k]];
      assert images[k] in images;
    }
  }

  predicate AboutEntry(f: Finding) { f.EntryOrphan? || f.Undiscovered? || f.Undeclared? }

  lemma EntryTrue(c: Catalog, uses: seq<Use>, g: (string, ImageEntry), f: Finding)
    requires g in c.images
    ensures f in EntryFindings(g.1, Consumers(uses, g.1.tag)) ==> AboutEntry(f) && TrueWith(f, c, uses)
  {
    hide EntryFindings, Consumers, Consumed;
    EntryMembers(g.1, Consumers(uses, g.1.tag), f);
    assert Entry(c, g.1.tag, g.1);
    forall source ensures source in Consumers(uses, g.1.tag) <==> Consumed(uses, g.1.tag, source) {
      ConsumersAre(uses, g.1.tag, source);
    }
  }

  lemma EntriesExact(c: Catalog, uses: seq<Use>, f: Finding)
    ensures f in AllEntries(c.images, uses) <==> AboutEntry(f) && TrueWith(f, c, uses)
  {
    EntriesMembers(c.images, uses, f);
    hide AllEntries, EntryFindings, Consumers, Consumed;
    if f in AllEntries(c.images, uses) {
      var g :| g in c.images && f in EntryFindings(g.1, Consumers(uses, g.1.tag));
      EntryTrue(c, uses, g, f);
    }
    if AboutEntry(f) && TrueWith(f, c, uses) {
      var e := EntryOf(c, uses, f);
      var g :| g in c.images && g.1 == e;
      EntryMembers(e, Consumers(uses, e.tag), f);
      forall source ensures source in Consumers(uses, e.tag) <==> Consumed(uses, e.tag, source) {
        ConsumersAre(uses, e.tag, source);
      }
    }
  }

  lemma EntryOf(c: Catalog, uses: seq<Use>, f: Finding) returns (e: ImageEntry)
    requires AboutEntry(f) && TrueWith(f, c, uses)
    ensures Entry(c, f.tag, e)
    ensures f.Undiscovered? ==> f.source in e.consumers
    ensures f.Undeclared? ==> f.source !in e.consumers
  {
    hide Consumed, Entry;
    if f.EntryOrphan? {
      e :| Entry(c, f.tag, e);
    } else if f.Undiscovered? {
      e :| Entry(c, f.tag, e) && f.source in e.consumers;
    } else {
      e :| Entry(c, f.tag, e) && f.source !in e.consumers;
    }
  }

  // ---- All findings -------------------------------------------------------

  lemma MessagesMembers(messages: seq<string>, f: Finding)
    ensures f in Messages(messages) <==> f.Discovered? && f.message in messages
  {
    if f.Discovered? && f.message in messages {
      var i :| 0 <= i < |messages| && messages[i] == f.message;
      assert Messages(messages)[i] == f;
    }
  }

  /** A finding about a use is true of the repository when it is true of that use. */
  lemma OneUse(f: Finding, c: Catalog, uses: seq<Use>)
    requires AboutPin(f) || AboutLocal(f)
    ensures TrueWith(f, c, uses) <==> exists u :: u in uses && u.local == AboutLocal(f) && TrueWith(f, c, [u])
  {
    hide ReadAs, Entry, Allowed, ReferenceParts;
    if TrueWith(f, c, uses) { assert f.use in uses && TrueWith(f, c, [f.use]); }
  }

  lemma PinsExactly(c: Catalog, uses: seq<Use>, f: Finding)
    requires TagsDistinct(c.images)
    ensures f in PassFindings(Pins(c), uses) <==> AboutPin(f) && TrueWith(f, c, uses)
  {
    PassMembers(Pins(c), uses, f);
    forall u ensures f in FindingsOf(Pins(c), u) <==> !u.local && AboutPin(f) && TrueWith(f, c, [u]) {
      if !u.local { PinnedUse(c, u, f); }
    }
    hide TrueWith, PassFindings, FindingsOf, TagsDistinct;
    if AboutPin(f) { OneUse(f, c, uses); }
  }

  lemma LocalExactly(c: Catalog, uses: seq<Use>, f: Finding)
    requires KeysDistinct(c.local)
    ensures f in PassFindings(Local(c), uses) <==> AboutLocal(f) && TrueWith(f, c, uses)
  {
    PassMembers(Local(c), uses, f);
    forall u ensures f in FindingsOf(Local(c), u) <==> u.local && AboutLocal(f) && TrueWith(f, c, [u]) {
      if u.local { LocalUse(c, u, f); }
    }
    hide TrueWith, PassFindings, FindingsOf, KeysDistinct;
    if AboutLocal(f) { OneUse(f, c, uses); }
  }

  lemma OneUseWithout(f: Finding, uses: seq<Use>)
    requires !f.CatalogueRefused?
    ensures TrueWithout(f, uses) <==> exists u :: u in uses && !u.local && TrueWithout(f, [u])
  {
    hide ReadAs, ReferenceParts;
    if TrueWithout(f, uses) { assert f.use in uses && TrueWithout(f, [f.use]); }
  }

  lemma WithoutExactly(uses: seq<Use>, f: Finding)
    ensures f in PassFindings(Uncatalogued, uses) <==> !f.CatalogueRefused? && TrueWithout(f, uses)
  {
    PassMembers(Uncatalogued, uses, f);
    forall u ensures f in FindingsOf(Uncatalogued, u) <==> !u.local && !f.CatalogueRefused? && TrueWithout(f, [u]) {
      if !u.local { Without(u, f); }
    }
    hide TrueWithout, PassFindings, FindingsOf;
    if !f.CatalogueRefused? { OneUseWithout(f, uses); }
  }

  lemma TrueKinds(f: Finding, c: Catalog, uses: seq<Use>)
    ensures TrueWith(f, c, uses) ==> AboutPin(f) || AboutLocal(f) || f.LocalOrphan? || AboutEntry(f)
    ensures f.Discovered? ==> !AboutPin(f) && !AboutLocal(f) && !AboutEntry(f) && !TrueWith(f, c, uses)
  {
    hide ReadAs, Entry, Allowed, ReferenceParts, Consumed, SeenIn;
  }

  /** The gate reports a finding exactly when what the finding says is the case. */
  lemma FindingsExact(catalog: Option<Catalog>, uses: seq<Use>, discovery: seq<string>, f: Finding)
    requires catalog.Some? ==> TagsDistinct(catalog.value.images) && KeysDistinct(catalog.value.local)
    ensures f in Deduplicated(AllFindings(catalog, uses, discovery)) <==> Justified(f, catalog, uses, discovery)
  {
    MessagesMembers(discovery, f);
    if catalog.Some? {
      var c := catalog.value;
      LocalExactly(c, uses, f);
      OrphansExact(c, uses, f);
      PinsExactly(c, uses, f);
      EntriesExact(c, uses, f);
      TrueKinds(f, c, uses);
    } else {
      WithoutExactly(uses, f);
      NoneDiscovered(f, uses);
    }
    hide TrueWith, TrueWithout, PassFindings, LocalOrphans, AllEntries, Messages, TagsDistinct, KeysDistinct, Seen, Deduplicated;
  }

  lemma NoneDiscovered(f: Finding, uses: seq<Use>)
    ensures f.Discovered? ==> !TrueWithout(f, uses)
    ensures f.CatalogueRefused? ==> TrueWithout(f, uses)
  {
  }

  // ---- Duplicates ---------------------------------------------------------

  /** The place of a finding's first occurrence. */
  ghost predicate FirstAt(findings: seq<Finding>, f: Finding, i: nat) {
    i < |findings| && findings[i] == f && forall j :: 0 <= j < i ==> findings[j] != f
  }

  /** Without duplicates the findings stand in the order of their first occurrences. */
  lemma {:induction false} FirstOccurrencesInOrder(findings: seq<Finding>, a: nat, b: nat, i: nat, j: nat)
    requires a < b < |Deduplicated(findings)|
    requires FirstAt(findings, Deduplicated(findings)[a], i) && FirstAt(findings, Deduplicated(findings)[b], j)
    ensures i < j
    decreases |findings|
  {
    hide Deduplicated;
    var k := |findings| - 1;
    DeduplicatedNext(findings);
    var before := Deduplicated(findings[..k]);
    if b < |before| {
      var f, g := Deduplicated(findings)[a], Deduplicated(findings)[b];
      assert f == before[a] && g == before[b] && f in before && g in before;
      EarlierFirst(findings, f, i);
      EarlierFirst(findings, g, j);
      FirstOccurrencesInOrder(findings[..k], a, b, i, j);
    } else {
      var f := Deduplicated(findings)[a];
      assert f == before[a] && f in before;
      EarlierFirst(findings, f, i);
      assert Deduplicated(findings)[b] == findings[k] && findings[k] !in findings[..k];
      assert forall h :: 0 <= h < k ==> findings[h] == findings[..k][h] && findings[h] in findings[..k];
    }
  }

  lemma DeduplicatedNext(findings: seq<Finding>)
    requires findings != []
    ensures var k := |findings| - 1; var before := Deduplicated(findings[..k]);
      Deduplicated(findings) == if findings[k] in findings[..k] then before else before + [findings[k]]
  {
  }

  lemma EarlierFirst(findings: seq<Finding>, f: Finding, i: nat)
    requires findings != [] && FirstAt(findings, f, i) && f in findings[..|findings| - 1]
    ensures i < |findings| - 1 && FirstAt(findings[..|findings| - 1], f, i)
  {
    var before := findings[..|findings| - 1];
    var j :| 0 <= j < |before| && before[j] == f;
    assert findings[j] == f;
  }
}
