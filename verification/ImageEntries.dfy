/** scripts/check_container_image_pins.py, load_catalog: the catalogue entries as
    they are written down, and what the reader makes of them. */
module ImageEntries {
  import opened Wrappers
  import opened ImageReferences
  import opened ImageCatalog
  import PythonStrings

  /** The mapping holds these pairs and no others, each key once; their order does not matter. */
  predicate Holds(v: Value, pairs: set<(string, Value)>) {
    v.Fields? && KeysDistinct(v.fields) && (set f | f in v.fields) == pairs
  }

  function Listed(texts: seq<string>): Value { Items(seq(|texts|, i requires 0 <= i < |texts| => Text(texts[i]))) }

  function LocalPairs(e: LocalEntry): set<(string, Value)> {
    {("compose", Text(e.compose)), ("service", Text(e.service)), ("context", Text(e.context))}
  }

  function ImagePairs(e: ImageEntry): set<(string, Value)> {
    {("reference", Text(e.reference)), ("registry", Text(e.registry)), ("tag", Text(e.tag)), ("digest", Text(e.digest)),
     ("media_type", Text(e.mediaType)), ("platforms", Listed(e.platforms)), ("resolved_at", Text(e.resolvedAt)),
     ("resolution", Text(e.resolution)), ("consumers", Listed(e.consumers))}
  }

  predicate LocalOk(e: LocalEntry, rules: Rules) {
    && Trimmed(e.compose) && Trimmed(e.service) && Trimmed(e.context)
    && rules.inside(e.compose) && rules.inside(e.context) && rules.normalised(e.context)
  }

  predicate ListOk(texts: seq<string>) {
    texts != [] && Distinct(texts) && forall t :: t in texts ==> Trimmed(t)
  }

  /** A registry is written as a bare host. */
  predicate BareHost(host: string) {
    && '@' !in host && (forall c :: c in host ==> !PythonStrings.Space(c))
    && forall i :: 0 <= i <= |host| - 3 ==> !(host[i] == ':' && host[i + 1] == '/' && host[i + 2] == '/')
  }

  predicate ImageOk(e: ImageEntry, rules: Rules) {
    && Trimmed(e.reference) && Trimmed(e.registry) && Trimmed(e.tag) && Trimmed(e.digest) && Trimmed(e.mediaType)
    && Trimmed(e.resolvedAt) && Trimmed(e.resolution) && ListOk(e.platforms) && ListOk(e.consumers)
    && e.reference == e.tag + "@" + e.digest && TagOk(e.tag) && IsDigest(e.digest)
    && BareHost(e.registry) && e.registry == CanonicalRegistry(e.tag)
    && e.mediaType in {
         "application/vnd.docker.distribution.manifest.v2+json",
         "application/vnd.docker.distribution.manifest.list.v2+json",
         "application/vnd.oci.image.manifest.v1+json",
         "application/vnd.oci.image.index.v1+json"
       }
    && "linux/amd64" in e.platforms && (forall p :: p in e.platforms ==> rules.platform(p))
    && rules.isoDate(e.resolvedAt) && forall c :: c in e.consumers ==> rules.inside(c)
  }

  lemma NoScheme(host: string)
    ensures Contains(host, "://")
      <==> exists i :: 0 <= i <= |host| - 3 && host[i] == ':' && host[i + 1] == '/' && host[i + 2] == '/'
  {
    if i :| 0 <= i <= |host| - 3 && host[i] == ':' && host[i + 1] == '/' && host[i + 2] == '/' {
      assert host[i..][..3] == "://";
      assert StartsAt(host, i, "://");
    }
    if i :| 0 <= i <= |host| && StartsAt(host, i, "://") {
      assert host[i..][0] == ':' && host[i..][1] == '/' && host[i..][2] == '/';
    }
  }

  lemma EntryMeans(e: ImageEntry, rules: Rules)
    requires Trimmed(e.reference) && Trimmed(e.registry) && Trimmed(e.tag) && Trimmed(e.digest) && Trimmed(e.mediaType)
    requires Trimmed(e.resolvedAt) && Trimmed(e.resolution) && ListOk(e.platforms) && ListOk(e.consumers)
    ensures EntryOk(e, rules) <==> ImageOk(e, rules)
  {
    PartsExact(e.reference, e.tag, Some(e.digest));
    NoScheme(e.registry);
    hide ReferenceParts, TagOk, IsDigest, CanonicalRegistry, Trimmed, ListOk, Contains;
  }

  lemma {:induction false} FieldIs(fields: seq<(string, Value)>, key: string)
    requires KeysDistinct(fields)
    ensures forall v :: (key, v) in fields ==> Field(fields, key) == v
    ensures key in KeysOf(fields) ==> (key, Field(fields, key)) in fields
    decreases |fields|
  {
    if fields != [] {
      assert forall i :: 0 <= i < |fields[1..]| ==> fields[1..][i] == fields[i + 1];
      FieldIs(fields[1..], key);
      assert fields == [fields[0]] + fields[1..];
    }
  }

  lemma FieldHeld(v: Value, pairs: set<(string, Value)>, key: string, item: Value)
    requires Holds(v, pairs) && (key, item) in pairs
    ensures Field(v.fields, key) == item
  {
    assert (key, item) in (set f | f in v.fields);
    FieldIs(v.fields, key);
  }

  lemma KeysHeld(v: Value, pairs: set<(string, Value)>, keys: set<string>)
    requires Holds(v, pairs) && keys == set p | p in pairs :: p.0
    ensures Record(v, keys)
  {
    assert forall f :: f in v.fields <==> f in (set g | g in v.fields);
  }

  lemma HeldBy(v: Value, keys: set<string>, pairs: set<(string, Value)>)
    requires Record(v, keys)
    requires keys == (set p | p in pairs :: p.0) && forall p :: p in pairs ==> p.1 == Field(v.fields, p.0)
    ensures Holds(v, pairs)
  {
    hide Field;
    forall f | f in v.fields ensures f in pairs {
      assert f.0 in KeysOf(v.fields);
      var p :| p in pairs && p.0 == f.0;
      FieldIs(v.fields, f.0);
      assert (f.0, f.1) in v.fields;
    }
    forall p | p in pairs ensures p in v.fields { FieldIs(v.fields, p.0); }
  }

  lemma ListedTexts(items: seq<Value>, texts: seq<string>)
    requires Texts(items) == Some(texts)
    ensures Items(items) == Listed(texts) && forall t :: t in texts ==> Trimmed(t)
  {
    forall i | 0 <= i < |items| ensures items[i] == Text(texts[i]) && Trimmed(texts[i]) { assert items[i] in items; }
  }

  lemma TextsListed(texts: seq<string>)
    requires forall t :: t in texts ==> Trimmed(t)
    ensures Texts(Listed(texts).items) == Some(texts)
  {
    var items := Listed(texts).items;
    forall v | v in items ensures v.Text? && Trimmed(v.text) {
      var i :| 0 <= i < |items| && items[i] == v;
      assert texts[i] in texts;
    }
    assert Texts(items).value == texts;
  }

  lemma ReadsListed(fields: seq<(string, Value)>, key: string, texts: seq<string>)
    ensures ReadTexts(fields, key) == Some(texts) <==> Field(fields, key) == Listed(texts) && ListOk(texts)
  {
    hide Texts, Distinct, Field;
    var v := Field(fields, key);
    if ReadTexts(fields, key) == Some(texts) { ListedTexts(v.items, texts); }
    if v == Listed(texts) && ListOk(texts) { TextsListed(texts); }
  }

  lemma ReadsText(fields: seq<(string, Value)>, key: string, text: string)
    ensures ReadText(fields, key) == Some(text) <==> Field(fields, key) == Text(text) && Trimmed(text)
  {
  }

  /** An allowlist entry is read exactly from a mapping that holds its three
      fields under their names and nothing else, each a proper text. */
  lemma LocalReads(v: Value, rules: Rules, e: LocalEntry)
    ensures ReadLocal(v, rules) == Some(e) <==> Holds(v, LocalPairs(e)) && LocalOk(e, rules)
  {
    hide Field, Trimmed, KeysDistinct;
    LocalKeys(e);
    if Holds(v, LocalPairs(e)) {
      KeysHeld(v, LocalPairs(e), LOCAL_IMAGE_KEYS);
      FieldHeld(v, LocalPairs(e), "compose", Text(e.compose));
      FieldHeld(v, LocalPairs(e), "service", Text(e.service));
      FieldHeld(v, LocalPairs(e), "context", Text(e.context));
    }
    if ReadLocal(v, rules) == Some(e) { LocalHeld(v, rules, e); }
  }

  lemma LocalKeys(e: LocalEntry)
    ensures LOCAL_IMAGE_KEYS == set p | p in LocalPairs(e) :: p.0
  {
    assert ("compose", Text(e.compose)) in LocalPairs(e) && ("service", Text(e.service)) in LocalPairs(e);
    assert ("context", Text(e.context)) in LocalPairs(e);
  }

  lemma LocalHeld(v: Value, rules: Rules, e: LocalEntry)
    requires ReadLocal(v, rules) == Some(e)
    ensures Holds(v, LocalPairs(e)) && LocalOk(e, rules)
  {
    assert v.Fields?;
    hide Field, Trimmed, KeysDistinct, Record;
    LocalKeys(e);
    ReadsText(v.fields, "compose", e.compose);
    ReadsText(v.fields, "service", e.service);
    ReadsText(v.fields, "context", e.context);
    HeldBy(v, LOCAL_IMAGE_KEYS, LocalPairs(e));
  }

  /** Likewise an image entry, from its nine fields. */
  lemma ImageReads(v: Value, rules: Rules, e: ImageEntry)
    ensures ReadImage(v, rules) == Some(e) <==> Holds(v, ImagePairs(e)) && ImageOk(e, rules)
  {
    hide ReadImage, Holds, ImageOk;
    if Holds(v, ImagePairs(e)) && ImageOk(e, rules) { HeldImage(v, rules, e); }
    if ReadImage(v, rules) == Some(e) { ImageHeld(v, rules, e); }
  }

  lemma ImageKeys(e: ImageEntry)
    ensures IMAGE_KEYS == set p | p in ImagePairs(e) :: p.0
  {
    var pairs := ImagePairs(e);
    assert ("reference", Text(e.reference)) in pairs && ("registry", Text(e.registry)) in pairs;
    assert ("tag", Text(e.tag)) in pairs && ("digest", Text(e.digest)) in pairs && ("media_type", Text(e.mediaType)) in pairs;
    assert ("platforms", Listed(e.platforms)) in pairs && ("consumers", Listed(e.consumers)) in pairs;
    assert ("resolved_at", Text(e.resolvedAt)) in pairs && ("resolution", Text(e.resolution)) in pairs;
  }

  /** Every field of the entry, under its name. */
  predicate FieldsAre(fields: seq<(string, Value)>, e: ImageEntry) {
    && Field(fields, "reference") == Text(e.reference) && Field(fields, "registry") == Text(e.registry)
    && Field(fields, "tag") == Text(e.tag) && Field(fields, "digest") == Text(e.digest)
    && Field(fields, "media_type") == Text(e.mediaType) && Field(fields, "platforms") == Listed(e.platforms)
    && Field(fields, "resolved_at") == Text(e.resolvedAt) && Field(fields, "resolution") == Text(e.resolution)
    && Field(fields, "consumers") == Listed(e.consumers)
  }

  lemma ImageFields(v: Value, rules: Rules, e: ImageEntry)
    ensures ReadImage(v, rules) == Some(e) <==> Record(v, IMAGE_KEYS) && FieldsAre(v.fields, e) && ImageOk(e, rules)
  {
    TextsOk(e);
    if TextsTrimmed(e) { EntryMeans(e, rules); }
    hide Field, Trimmed, ListOk, Record, EntryOk, Listed, ReadText, ReadTexts, ImageOk;
    if v.Fields? {
      ReadsText(v.fields, "reference", e.reference);
      ReadsText(v.fields, "registry", e.registry);
      ReadsText(v.fields, "tag", e.tag);
      ReadsText(v.fields, "digest", e.digest);
      ReadsText(v.fields, "media_type", e.mediaType);
      ReadsText(v.fields, "resolved_at", e.resolvedAt);
      ReadsText(v.fields, "resolution", e.resolution);
      ReadsListed(v.fields, "platforms", e.platforms);
      ReadsListed(v.fields, "consumers", e.consumers);
    } else {
      NoRecord(v);
    }
  }

  predicate TextsTrimmed(e: ImageEntry) {
    && Trimmed(e.reference) && Trimmed(e.registry) && Trimmed(e.tag) && Trimmed(e.digest) && Trimmed(e.mediaType)
    && Trimmed(e.resolvedAt) && Trimmed(e.resolution) && ListOk(e.platforms) && ListOk(e.consumers)
  }

  lemma TextsOk(e: ImageEntry)
    ensures forall rules :: ImageOk(e, rules) ==> TextsTrimmed(e)
  {
  }

  lemma NoRecord(v: Value)
    requires !v.Fields?
    ensures !Record(v, IMAGE_KEYS)
  {
  }

  lemma HeldImage(v: Value, rules: Rules, e: ImageEntry)
    requires Holds(v, ImagePairs(e)) && ImageOk(e, rules)
    ensures ReadImage(v, rules) == Some(e)
  {
    hide Field, Record, ImageOk, ReadImage, Holds, Listed;
    var pairs := ImagePairs(e);
    ImageKeys(e);
    KeysHeld(v, pairs, IMAGE_KEYS);
    FieldHeld(v, pairs, "reference", Text(e.reference));
    FieldHeld(v, pairs, "registry", Text(e.registry));
    FieldHeld(v, pairs, "tag", Text(e.tag));
    FieldHeld(v, pairs, "digest", Text(e.digest));
    FieldHeld(v, pairs, "media_type", Text(e.mediaType));
    FieldHeld(v, pairs, "platforms", Listed(e.platforms));
    FieldHeld(v, pairs, "resolved_at", Text(e.resolvedAt));
    FieldHeld(v, pairs, "resolution", Text(e.resolution));
    FieldHeld(v, pairs, "consumers", Listed(e.consumers));
    ImageFields(v, rules, e);
  }

  lemma ImageHeld(v: Value, rules: Rules, e: ImageEntry)
    requires ReadImage(v, rules) == Some(e)
    ensures Holds(v, ImagePairs(e)) && ImageOk(e, rules)
  {
    hide *;
    ImageFields(v, rules, e);
    ImageKeys(e);
    RecordFields(v, IMAGE_KEYS);
    PairsAre(v.fields, e);
    HeldBy(v, IMAGE_KEYS, ImagePairs(e));
  }

  lemma RecordFields(v: Value, keys: set<string>)
    requires Record(v, keys)
    ensures v.Fields?
  {
  }

  lemma PairsAre(fields: seq<(string, Value)>, e: ImageEntry)
    requires FieldsAre(fields, e)
    ensures forall p :: p in ImagePairs(e) ==> p.1 == Field(fields, p.0)
  {
    hide Field, Listed;
  }

  // ---- The registry and the tag of a reference ----------------------------

  lemma LastAt(head: string, c: char, tail: string)
    requires c !in tail
    ensures BeforeLast(head + [c] + tail, c) == head && AfterLast(head + [c] + tail, c) == tail
  {
    LastOfPrinted(head, tail, c);
  }

  lemma {:induction false} BeforeFirstIs(head: string, c: char, tail: string)
    requires c !in head && (tail == "" || tail[0] == c)
    ensures BeforeFirst(head + tail, c) == head
    decreases |head|
  {
    if head == "" {
      assert head + tail == tail;
    } else {
      assert head[0] in head && forall k :: k in head[1..] ==> k in head;
      assert (head + tail)[1..] == head[1..] + tail;
      BeforeFirstIs(head[1..], c, tail);
    }
  }

  /** The registry of a tag is its first component where that names a host, and
      the public hub otherwise. */
  lemma RegistryOfTag(first: string, rest: string, version: string)
    requires '/' !in first && ':' !in version && (rest == "" || rest[0] == '/')
    ensures CanonicalRegistry(first + rest + ":" + version)
         == if '.' in first || ':' in first || first == "localhost" then first else "registry-1.docker.io"
  {
    LastAt(first + rest, ':', version);
    BeforeFirstIs(first, '/', rest);
    hide BeforeLast, BeforeFirst;
  }

  /** A tag is readable when something stands behind the name's colon, and does not end in one. */
  lemma ReadableTag(dir: string, name: string, version: string)
    requires (dir == "" || dir[|dir| - 1] == '/') && '/' !in name && '/' !in version && ':' !in name
    ensures HasReadableTag(dir + (name + ":" + version)) <==> version != "" && version[|version| - 1] != ':'
    ensures !HasReadableTag(dir + name)
  {
    FinalComponent(dir, name + ":" + version);
    FinalComponent(dir, name);
    assert (name + ":" + version)[|name|] == ':';
    hide AfterLast;
  }

  lemma FinalComponent(dir: string, final: string)
    requires (dir == "" || dir[|dir| - 1] == '/') && '/' !in final
    ensures AfterLast(dir + final, '/') == final
  {
    if dir == "" {
      assert dir + final == final;
    } else {
      assert dir + final == dir[..|dir| - 1] + ['/'] + final;
      LastAt(dir[..|dir| - 1], '/', final);
    }
  }

  /** An allowlisted reference ends in `:local` and holds no digest and no variable. */
  lemma LocalReferenceIff(reference: string)
    ensures LocalReference(reference) <==>
      (exists name :: reference == name + ":local") && '@' !in reference && '$' !in reference
  {
    if LocalReference(reference) { assert reference == reference[..|reference| - 6] + ":local"; }
  }
}
