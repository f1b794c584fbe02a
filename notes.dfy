/**
 * The note record shared by both prototypes, the metadata mapping that
 * their YAML front matter holds, and the metadata library as a parameter.
 */
module Notes {
  import opened Wrappers
  import opened Text

  /** Property values are opaque to the store; they are kept as their encoded text. */
  type Props = map<string, string>

  /** A link as written in a note's metadata: `type` and `context` may be absent. */
  datatype RawLink = RawLink(target: string, linkType: Option<string>, context: Option<string>)

  /** The `Note` dataclass; `filePath` is set only by the one-note-per-file store. */
  datatype Note = Note(
    id: string,
    moduleName: string,
    title: string,
    content: string,
    created: string,
    modified: string,
    tags: seq<string>,
    properties: Props,
    links: seq<RawLink>,
    filePath: Option<string>)

  /**
   * The mapping a metadata block decodes to: one optional entry per key
   * the stores read. A key with a value of an unexpected type is not modelled.
   */
  datatype Metadata = Metadata(
    id: Option<string>,
    moduleName: Option<string>,
    title: Option<string>,
    created: Option<string>,
    modified: Option<string>,
    tags: Option<seq<string>>,
    properties: Option<Props>,
    links: Option<seq<RawLink>>)

  /** What loading a metadata block gives: a mapping, some other YAML value, or a YAML error. */
  datatype Loaded = Mapping(meta: Metadata) | NotMapping | YamlError

  /** The YAML library: `yaml.dump` of a metadata mapping and `yaml.safe_load` of a block. */
  datatype YamlCodec = YamlCodec(dump: Metadata -> string, load: string -> Loaded)

  /**
   * The shape of what `yaml.dump` emits for a block-style mapping: it starts
   * with a key, ends with one newline after a non-blank character, and never
   * holds a line beginning with `---` (that would be a document marker).
   */
  predicate WellDumped(y: string) {
    && |y| >= 2
    && y[|y| - 1] == '\n'
    && !IsWs(y[0])
    && !IsWs(y[|y| - 2])
    && forall k :: 0 <= k < |y| ==> !StartsAt(y, k, "\n---")
  }

  /** A dumped block without its final newline. */
  function Chomp(y: string): string
    requires |y| >= 1
  {
    y[..|y| - 1]
  }

  /** A well-dumped block without its final newline: non-empty, starting with a key, with no `\n---` inside, and what `rstrip` leaves. */
  lemma ChompShape(d: string)
    requires WellDumped(d)
    ensures |Chomp(d)| >= 1 && !IsWs(Chomp(d)[0]) && TrimEnd(d) == Chomp(d)
    ensures forall k :: 0 <= k < |Chomp(d)| ==> !StartsAt(Chomp(d), k, "\n---")
  {
    var y := Chomp(d);
    assert d == y + "\n";
    assert TrimEnd(d) == TrimEnd(y);
    assert y[|y| - 1] == d[|d| - 2];
    forall k | 0 <= k < |y| ensures !StartsAt(y, k, "\n---") {
      if k + 4 <= |y| {
        StartsAtPrefix(y, "\n", k, "\n---");
      }
    }
  }

  /** What the codecs rely on from the YAML library: loading a dumped mapping gives it back. */
  ghost predicate Lawful(c: YamlCodec) {
    forall m :: WellDumped(c.dump(m)) && c.load(Chomp(c.dump(m))) == Mapping(m)
  }

  /** The metadata mapping both serializers build: five fixed keys, then tags, properties and links when non-empty. */
  function MetaOf(n: Note): Metadata {
    Metadata(
      Some(n.id), Some(n.moduleName), Some(n.title), Some(n.created), Some(n.modified),
      if n.tags != [] then Some(n.tags) else None,
      if n.properties != map[] then Some(n.properties) else None,
      if n.links != [] then Some(n.links) else None)
  }

  /** Both parsers' construction of a Note from a loaded mapping, with their defaults for absent keys. */
  function NoteFromMeta(md: Metadata, defaultId: string, content: string, now: string, path: Option<string>): Note
  {
    Note(md.id.GetOr(defaultId), md.moduleName.GetOr("default"), md.title.GetOr("Untitled"), content,
         md.created.GetOr(now), md.modified.GetOr(now), md.tags.GetOr([]),
         md.properties.GetOr(map[]), md.links.GetOr([]), path)
  }

  /** The emitted mapping always holds the five fixed keys, and tags, properties and links exactly when non-empty. */
  lemma MetaOfKeys(n: Note)
    ensures var m := MetaOf(n);
      && m.id == Some(n.id) && m.moduleName == Some(n.moduleName) && m.title == Some(n.title)
      && m.created == Some(n.created) && m.modified == Some(n.modified)
      && (m.tags.Some? <==> n.tags != []) && (m.properties.Some? <==> n.properties != map[])
      && (m.links.Some? <==> n.links != [])
  {
  }

  /** Reading back the emitted mapping restores every metadata field: absent keys default to the empty values they stood for. */
  lemma MetaRoundTrip(n: Note, defaultId: string, content: string, now: string, path: Option<string>)
    ensures NoteFromMeta(MetaOf(n), defaultId, content, now, path) == n.(content := content, filePath := path)
  {
  }
}
