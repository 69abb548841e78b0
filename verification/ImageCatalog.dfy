/** scripts/check_container_image_pins.py, load_catalog: the strict reading of the
    offline image catalogue from its parsed YAML document. */
module ImageCatalog {
  import opened Wrappers
  import opened ImageReferences
  import opened PythonStrings

  /** A parsed document; Fields is a mapping with string keys. */
  datatype Value = Text(text: string) | Number(number: int) | Items(items: seq<Value>)
                 | Fields(fields: seq<(string, Value)>) | Other

  datatype ImageEntry = ImageEntry(reference: string, registry: string, tag: string, digest: string,
                                   mediaType: string, platforms: seq<string>, resolvedAt: string,
                                   resolution: string, consumers: seq<string>)

  datatype LocalEntry = LocalEntry(compose: string, service: string, context: string)

  datatype Catalog = Catalog(images: seq<(string, ImageEntry)>, local: seq<(string, LocalEntry)>)

  /** Library predicates the reader relies on: identifier and platform patterns,
      ISO dates, and paths that stay inside the repository or are normalised. */
  datatype Rules = Rules(identifier: string -> bool, platform: string -> bool, isoDate: string -> bool,
                         inside: string -> bool, normalised: string -> bool)

  const MEDIA_TYPES := {
    "application/vnd.docker.distribution.manifest.v2+json",
    "application/vnd.docker.distribution.manifest.list.v2+json",
    "application/vnd.oci.image.manifest.v1+json",
    "application/vnd.oci.image.index.v1+json"
  }

  const LOCK_KEYS := {"schema_version", "images", "local_images"}

  const IMAGE_KEYS := {
    "reference", "registry", "tag", "digest", "media_type", "platforms", "resolved_at", "resolution", "consumers"
  }

  const LOCAL_IMAGE_KEYS := {"compose", "service", "context"}

  function KeysOf<V(==)>(fields: seq<(string, V)>): set<string> {
    set f | f in fields :: f.0
  }

  predicate KeysDistinct<V>(fields: seq<(string, V)>) {
    forall i, j :: 0 <= i < j < |fields| ==> fields[i].0 != fields[j].0
  }

  // ---- Reading one entry --------------------------------------------------

  predicate Trimmed(s: string) {
    s != "" && !Space(s[0]) && !Space(s[|s| - 1])
  }

  predicate Record(v: Value, keys: set<string>) {
    v.Fields? && KeysDistinct(v.fields) && KeysOf(v.fields) == keys
  }

  /** The value of a key; Other when it is absent. */
  function Field(fields: seq<(string, Value)>, key: string): Value {
    if fields == [] then Other else if fields[0].0 == key then fields[0].1 else Field(fields[1..], key)
  }

  function ReadText(fields: seq<(string, Value)>, key: string): Option<string> {
    var v := Field(fields, key);
    if v.Text? && Trimmed(v.text) then Some(v.text) else None
  }

  predicate Distinct(items: seq<string>) {
    forall i, j :: 0 <= i < j < |items| ==> items[i] != items[j]
  }

  function Texts(items: seq<Value>): (r: Option<seq<string>>)
    ensures r.Some? ==> |r.value| == |items|
  {
    if forall v :: v in items ==> v.Text? && Trimmed(v.text)
    then Some(seq(|items|, i requires 0 <= i < |items| => if items[i].Text? then items[i].text else ""))
    else None
  }

  function ReadTexts(fields: seq<(string, Value)>, key: string): (r: Option<seq<string>>)
    ensures r.Some? ==> r.value != [] && Distinct(r.value)
  {
    var v := Field(fields, key);
    if !v.Items? || v.items == [] then None else
      match Texts(v.items)
      case None => None
      case Some(texts) => if Distinct(texts) then Some(texts) else None
  }

  predicate Contains(s: string, part: string) {
    exists i :: 0 <= i <= |s| && StartsAt(s, i, part)
  }

  predicate StartsAt(s: string, i: nat, part: string)
    requires i <= |s|
  {
    part <= s[i..]
  }

  predicate RegistryOk(registry: string, tag: string) {
    !Contains(registry, "://") && '@' !in registry && (forall c :: c in registry ==> !Space(c))
    && registry == CanonicalRegistry(tag)
  }

  predicate EntryOk(e: ImageEntry, rules: Rules) {
    && ReferenceParts(e.reference) == Parts(Some(e.tag), Some(e.digest), None)
    && IsDigest(e.digest)
    && RegistryOk(e.registry, e.tag)
    && e.mediaType in MEDIA_TYPES
    && (forall p :: p in e.platforms ==> rules.platform(p)) && "linux/amd64" in e.platforms
    && rules.isoDate(e.resolvedAt)
    && forall c :: c in e.consumers ==> rules.inside(c)
  }

  function ReadImage(v: Value, rules: Rules): (r: Option<ImageEntry>)
    ensures r.Some? ==> EntryOk(r.value, rules) && r.value.consumers != [] && Distinct(r.value.consumers)
  {
    if !Record(v, IMAGE_KEYS) then None else
      var reference, registry := ReadText(v.fields, "reference"), ReadText(v.fields, "registry");
      var tag, digest := ReadText(v.fields, "tag"), ReadText(v.fields, "digest");
      var mediaType, platforms := ReadText(v.fields, "media_type"), ReadTexts(v.fields, "platforms");
      var resolvedAt, resolution := ReadText(v.fields, "resolved_at"), ReadText(v.fields, "resolution");
      var consumers := ReadTexts(v.fields, "consumers");
      if reference.None? || registry.None? || tag.None? || digest.None? || mediaType.None? || platforms.None?
         || resolvedAt.None? || resolution.None? || consumers.None?
      then None
      else
        var e := ImageEntry(reference.value, registry.value, tag.value, digest.value, mediaType.value,
                            platforms.value, resolvedAt.value, resolution.value, consumers.value);
        if EntryOk(e, rules) then Some(e) else None
  }

  predicate LocalReference(reference: string) {
    && |reference| >= 6 && reference[|reference| - 6..] == ":local"
    && '@' !in reference && '$' !in reference
  }

  function ReadLocal(v: Value, rules: Rules): Option<LocalEntry> {
    if !Record(v, LOCAL_IMAGE_KEYS) then None else
      var compose, service := ReadText(v.fields, "compose"), ReadText(v.fields, "service");
      var context := ReadText(v.fields, "context");
      if compose.None? || service.None? || context.None? then None
      else if !rules.inside(compose.value) || !rules.inside(context.value) || !rules.normalised(context.value) then None
      else Some(LocalEntry(compose.value, service.value, context.value))
  }

  // ---- Reading the catalogue ----------------------------------------------

  /** What makes a catalogue the reading of a document. */
  ghost predicate Reads(root: Value, rules: Rules, c: Catalog) {
    && Record(root, LOCK_KEYS) && Field(root.fields, "schema_version") == Number(1)
    && ReadsImages(Field(root.fields, "images"), rules, c.images)
    && ReadsLocal(Field(root.fields, "local_images"), rules, c.local)
  }

  ghost predicate ReadsImages(v: Value, rules: Rules, images: seq<(string, ImageEntry)>) {
    && v.Fields? && KeysDistinct(v.fields) && v.fields != [] && |images| == |v.fields|
    && (forall i :: 0 <= i < |images| ==> ImageRead(v.fields[i], rules, images[i]))
    && TagsDistinct(images)
  }

  predicate ImageRead(field: (string, Value), rules: Rules, image: (string, ImageEntry)) {
    image.0 == field.0 && rules.identifier(field.0) && ReadImage(field.1, rules) == Some(image.1)
  }

  predicate TagsDistinct(images: seq<(string, ImageEntry)>) {
    forall i, j :: 0 <= i < j < |images| ==> images[i].1.tag != images[j].1.tag
  }

  ghost predicate ReadsLocal(v: Value, rules: Rules, local: seq<(string, LocalEntry)>) {
    && v.Fields? && KeysDistinct(v.fields) && |local| == |v.fields|
    && forall i :: 0 <= i < |local| ==> LocalRead(v.fields[i], rules, local[i])
  }

  predicate LocalRead(field: (string, Value), rules: Rules, local: (string, LocalEntry)) {
    local.0 == field.0 && LocalReference(field.0) && ReadLocal(field.1, rules) == Some(local.1)
  }

  function TagsOf(images: seq<(string, ImageEntry)>): set<string> {
    set image | image in images :: image.1.tag
  }

  /** The catalogue, when and only when the document has one. */
  method LoadCatalog(root: Value, rules: Rules) returns (catalog: Option<Catalog>)
    ensures catalog.Some? ==> Reads(root, rules, catalog.value)
    ensures catalog.None? ==> forall c :: !Reads(root, rules, c)
  {
    if !Record(root, LOCK_KEYS) || Field(root.fields, "schema_version") != Number(1) {
      return None;
    }
    var images := LoadImages(Field(root.fields, "images"), rules);
    if images.None? {
      return None;
    }
    var local := LoadLocal(Field(root.fields, "local_images"), rules);
    if local.None? {
      return None;
    }
    catalog := Some(Catalog(images.value, local.value));
  }

  method LoadImages(v: Value, rules: Rules) returns (r: Option<seq<(string, ImageEntry)>>)
    ensures r.Some? ==> ReadsImages(v, rules, r.value)
    ensures r.None? ==> forall images :: !ReadsImages(v, rules, images)
  {
    if !v.Fields? || !KeysDistinct(v.fields) || v.fields == [] {
      return None;
    }
    r := LoadEntries(v, rules);
  }

  /** The loop of LoadImages. */
  method LoadEntries(v: Value, rules: Rules) returns (r: Option<seq<(string, ImageEntry)>>)
    requires v.Fields? && KeysDistinct(v.fields) && v.fields != []
    ensures r.Some? ==> ReadsImages(v, rules, r.value)
    ensures r.None? ==> forall images :: !ReadsImages(v, rules, images)
  {
    hide ReadImage, TagsDistinct, TagsOf, KeysDistinct, ReadsImages;
    var images: seq<(string, ImageEntry)> := [];
    NoTags();
    var seen: map<string, string> := map[];
    for k := 0 to |v.fields|
      invariant |images| == k && forall i :: 0 <= i < k ==> ImageRead(v.fields[i], rules, images[i])
      invariant TagsDistinct(images)
      invariant seen.Keys == TagsOf(images)
    {
      var (identifier, raw) := v.fields[k];
      var entry := ReadImage(raw, rules);
      if !rules.identifier(identifier) || entry.None? {
        Unreadable(v, rules, k);
        return None;
      }
      if entry.value.tag in seen {
        var i := TagIndex(images, entry.value.tag);
        TagRepeated(v, rules, i, k);
        return None;
      }
      seen := seen[entry.value.tag := identifier];
      TagsGrow(images, (identifier, entry.value));
      images := images + [(identifier, entry.value)];
    }
    Assemble(v, rules, images);
    r := Some(images);
  }

  lemma Assemble(v: Value, rules: Rules, images: seq<(string, ImageEntry)>)
    requires v.Fields? && KeysDistinct(v.fields) && v.fields != [] && |images| == |v.fields| && TagsDistinct(images)
    requires forall i :: 0 <= i < |images| ==> ImageRead(v.fields[i], rules, images[i])
    ensures ReadsImages(v, rules, images)
  {
  }

  lemma NoTags()
    ensures TagsOf([]) == {} && TagsDistinct([])
  {
  }

  lemma TagIndex(images: seq<(string, ImageEntry)>, tag: string) returns (i: nat)
    requires tag in TagsOf(images)
    ensures i < |images| && images[i].1.tag == tag
  {
    var image :| image in images && image.1.tag == tag;
    i :| 0 <= i < |images| && images[i] == image;
  }

  lemma TagsGrow(images: seq<(string, ImageEntry)>, image: (string, ImageEntry))
    ensures TagsOf(images + [image]) == TagsOf(images) + {image.1.tag}
    ensures TagsDistinct(images) && image.1.tag !in TagsOf(images) ==> TagsDistinct(images + [image])
  {
    forall t ensures t in TagsOf(images + [image]) <==> t in TagsOf(images) || t == image.1.tag {
      if t in TagsOf(images) {
        var earlier :| earlier in images && earlier.1.tag == t;
        assert earlier in images + [image];
      }
      if t == image.1.tag { assert image in images + [image]; }
    }
    assert forall i :: 0 <= i < |images| ==> images[i] in images && images[i].1.tag in TagsOf(images);
  }

  lemma Unreadable(v: Value, rules: Rules, k: nat)
    requires v.Fields? && k < |v.fields|
    requires !rules.identifier(v.fields[k].0) || ReadImage(v.fields[k].1, rules).None?
    ensures forall images :: !ReadsImages(v, rules, images)
  {
    hide ReadImage, TagsDistinct, KeysDistinct;
    forall images: seq<(string, ImageEntry)> ensures !ReadsImages(v, rules, images) {
      assert |images| == |v.fields| ==> !ImageRead(v.fields[k], rules, images[k]);
    }
  }

  lemma TagRepeated(v: Value, rules: Rules, i: nat, k: nat)
    requires v.Fields? && i < k < |v.fields|
    requires ReadImage(v.fields[i].1, rules).Some? && ReadImage(v.fields[k].1, rules).Some?
    requires ReadImage(v.fields[i].1, rules).value.tag == ReadImage(v.fields[k].1, rules).value.tag
    ensures forall images :: !ReadsImages(v, rules, images)
  {
    hide ReadImage, KeysDistinct;
    forall images: seq<(string, ImageEntry)> ensures !ReadsImages(v, rules, images) {
      if |images| == |v.fields| && ImageRead(v.fields[i], rules, images[i]) && ImageRead(v.fields[k], rules, images[k]) {
        assert images[i].1.tag == images[k].1.tag;
      }
    }
  }

  lemma UnreadableLocal(v: Value, rules: Rules, k: nat)
    requires v.Fields? && k < |v.fields|
    requires !LocalReference(v.fields[k].0) || ReadLocal(v.fields[k].1, rules).None?
    ensures forall local :: !ReadsLocal(v, rules, local)
  {
    hide ReadLocal, KeysDistinct, LocalReference;
    forall local: seq<(string, LocalEntry)> ensures !ReadsLocal(v, rules, local) {
      assert |local| == |v.fields| ==> !LocalRead(v.fields[k], rules, local[k]);
    }
  }

  method LoadLocal(v: Value, rules: Rules) returns (r: Option<seq<(string, LocalEntry)>>)
    ensures r.Some? ==> ReadsLocal(v, rules, r.value)
    ensures r.None? ==> forall local :: !ReadsLocal(v, rules, local)
  {
    if !v.Fields? || !KeysDistinct(v.fields) {
      return None;
    }
    hide ReadLocal, LocalReference;
    var local := [];
    for k := 0 to |v.fields|
      invariant |local| == k && forall i :: 0 <= i < k ==> LocalRead(v.fields[i], rules, local[i])
    {
      var (reference, raw) := v.fields[k];
      var entry := ReadLocal(raw, rules);
      if !LocalReference(reference) || entry.None? {
        UnreadableLocal(v, rules, k);
        return None;
      }
      local := local + [(reference, entry.value)];
    }
    r := Some(local);
  }

  // ---- What a catalogue guarantees ----------------------------------------

  /** Every reference is its tag pinned by its digest, no two entries share a
      tag or a reference, and every entry declares a consumer. */
  ghost predicate Trusted(c: Catalog) {
    && TagsDistinct(c.images) && KeysDistinct(c.images) && KeysDistinct(c.local)
    && (forall i :: 0 <= i < |c.images| ==> Pinned(c.images[i].1))
    && forall i, j :: 0 <= i < j < |c.images| ==> c.images[i].1.reference != c.images[j].1.reference
  }

  ghost predicate Pinned(e: ImageEntry) {
    && e.reference == e.tag + "@" + e.digest && TagOk(e.tag) && IsDigest(e.digest)
    && e.consumers != [] && Distinct(e.consumers)
  }

  lemma ReadImagePinned(v: Value, rules: Rules)
    requires ReadImage(v, rules).Some?
    ensures Pinned(ReadImage(v, rules).value)
  {
    hide ReadImage, ReferenceParts;
    var e := ReadImage(v, rules).value;
    PartsExact(e.reference, e.tag, Some(e.digest));
  }

  lemma ImagesTrusted(v: Value, rules: Rules, images: seq<(string, ImageEntry)>)
    requires ReadsImages(v, rules, images)
    ensures TagsDistinct(images) && KeysDistinct(images)
    ensures forall i :: 0 <= i < |images| ==> Pinned(images[i].1)
  {
    hide ReadImage, Pinned;
    forall i | 0 <= i < |images| ensures images[i].0 == v.fields[i].0 && Pinned(images[i].1) {
      assert ImageRead(v.fields[i], rules, images[i]);
      ReadImagePinned(v.fields[i].1, rules);
    }
  }

  lemma LocalTrusted(v: Value, rules: Rules, local: seq<(string, LocalEntry)>)
    requires ReadsLocal(v, rules, local)
    ensures KeysDistinct(local)
  {
    hide ReadLocal, LocalReference;
    assert forall i :: 0 <= i < |local| ==> LocalRead(v.fields[i], rules, local[i]);
  }

  lemma SameReferenceSameTag(a: ImageEntry, b: ImageEntry)
    requires Pinned(a) && Pinned(b) && a.reference == b.reference
    ensures a.tag == b.tag
  {
    hide TagOk, IsDigest, ReferenceParts;
    PartsExact(a.reference, a.tag, Some(a.digest));
    PartsExact(b.reference, b.tag, Some(b.digest));
  }

  lemma ReadingTrusted(root: Value, rules: Rules, c: Catalog)
    requires Reads(root, rules, c)
    ensures Trusted(c)
  {
    hide ReadsImages, ReadsLocal, Field, Pinned, KeysDistinct;
    ImagesTrusted(Field(root.fields, "images"), rules, c.images);
    LocalTrusted(Field(root.fields, "local_images"), rules, c.local);
    forall i, j | 0 <= i < j < |c.images| ensures c.images[i].1.reference != c.images[j].1.reference {
      if c.images[i].1.reference == c.images[j].1.reference {
        SameReferenceSameTag(c.images[i].1, c.images[j].1);
      }
    }
  }
}
