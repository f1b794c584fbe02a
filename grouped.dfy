/**
 * The grouped record codec: many notes in one file, each wrapped in
 * `<!-- NOTE_START: id -->` / `<!-- NOTE_END: id -->` markers around a
 * metadata block and a body, under a three-line header. Parsing follows
 * `re.finditer` of
 * `<!-- NOTE_START: (.+?) -->\s*\n---\s*\n(.*?)\n---\s*\n(.*?)\n<!-- NOTE_END: \1 -->`
 * with DOTALL, modelled as an explicit search.
 */
module GroupedCodec {
  import opened Wrappers
  import opened Text
  import opened Notes
  import opened Paths

  const StartTag: string := "<!-- NOTE_START: "
  const EndTag: string := "<!-- NOTE_END: "
  const TagClose: string := " -->"
  const Separator: string := "\n---\n"

  function StartLine(id: string): string {
    StartTag + id + TagClose
  }

  function EndLine(id: string): string {
    EndTag + id + TagClose
  }

  /** What the lazy body group must be followed by: a newline and the end line carrying the same id. */
  function EndMarker(id: string): string {
    "\n" + EndLine(id)
  }

  // ---------------------------------------------------------------- writing

  /** The three header lines; `ts` stands for the `datetime.now()` of the "Generated:" line. */
  function Header(ts: string, count: nat): string {
    "# Notes File\n# Generated: " + ts + "\n# Contains " + Decimal(count) + " notes\n"
  }

  /** The metadata block as written: the dumped mapping with trailing whitespace removed. */
  function MetaText(n: Note, codec: YamlCodec): string {
    TrimEnd(codec.dump(MetaOf(n)))
  }

  /** Everything up to the metadata block: a blank separation, the start line and the opening `---`. */
  function Opening(id: string): string {
    "\n" + StartLine(id) + Separator
  }

  /** Everything after the body: the end line and the empty part that separates notes. */
  function Closing(id: string): string {
    EndMarker(id) + "\n"
  }

  /**
   * One note's share of the `"\n".join` of the parts list: the start
   * delimiter, `---`, the metadata, `---`, the content, the end delimiter
   * and an empty part, each introduced by the newline of the join.
   */
  function Block(n: Note, codec: YamlCodec): string {
    Opening(n.id) + MetaText(n, codec) + Separator + n.content + Closing(n.id)
  }

  function Blocks(ns: seq<Note>, codec: YamlCodec): string
    decreases |ns|
  {
    if ns == [] then "" else Block(ns[0], codec) + Blocks(ns[1..], codec)
  }

  /** `serialize_notes`: the header, then each note's block in order. */
  function SerializedNotes(ns: seq<Note>, codec: YamlCodec, ts: string): string {
    Header(ts, |ns|) + Blocks(ns, codec)
  }

  lemma {:induction false} BlocksSnoc(ns: seq<Note>, n: Note, codec: YamlCodec)
    ensures Blocks(ns + [n], codec) == Blocks(ns, codec) + Block(n, codec)
    decreases |ns|
  {
    if ns == [] {
      assert [n][1..] == [];
    } else {
      assert (ns + [n])[1..] == ns[1..] + [n];
      BlocksSnoc(ns[1..], n, codec);
    }
  }

  lemma SerializeStep(ns: seq<Note>, i: nat, codec: YamlCodec, ts: string)
    requires i < |ns|
    ensures Header(ts, |ns|) + Blocks(ns[..i + 1], codec) == Header(ts, |ns|) + Blocks(ns[..i], codec) + Block(ns[i], codec)
  {
    assert ns[..i + 1] == ns[..i] + [ns[i]];
    BlocksSnoc(ns[..i], ns[i], codec);
  }

  /** `serialize_notes` as the source writes it: a loop that appends each note's parts. */
  method SerializeNotes(ns: seq<Note>, codec: YamlCodec, ts: string) returns (text: string)
    ensures text == SerializedNotes(ns, codec, ts)
  {
    text := Header(ts, |ns|);
    var i := 0;
    while i < |ns|
      invariant 0 <= i <= |ns|
      invariant text == Header(ts, |ns|) + Blocks(ns[..i], codec)
    {
      SerializeStep(ns, i, codec, ts);
      text := text + Block(ns[i], codec);
      i := i + 1;
    }
    assert ns[..i] == ns;
  }

  // ---------------------------------------------------------------- reading

  /** One match: the id of the start marker and the raw metadata and body groups. */
  datatype Section = Section(id: string, front: string, body: string)

  /**
   * The section regex tried at a start tag at `s`: the lazy id ends at the
   * first ` -->`, the blank run before the opening `---` must end in a
   * newline, the metadata block runs to the first closer, and the body to
   * the first end marker with the same id. Returns the section and where
   * the match ends.
   */
  function SectionAt(t: string, s: nat): (r: Option<(Section, nat)>)
    ensures r.Some? ==> s < r.value.1 <= |t|
  {
    if !TagClosedAt(t, s) then None
    else AfterTag(t, s, Find(t, TagClose, s + |StartTag| + 1).value)
  }

  /** The rest of the section regex once the start tag's id runs up to the tag close at `q`. */
  function AfterTag(t: string, s: nat, q: nat): (r: Option<(Section, nat)>)
    requires s + |StartTag| <= q && q + |TagClose| <= |t|
    ensures r.Some? ==> q < r.value.1 <= |t|
  {
    SectionAfterId(t, t[s + |StartTag|..q], q + |TagClose|)
  }

  /** A start tag at `s` and a tag close somewhere after it. */
  predicate TagClosedAt(t: string, s: nat) {
    StartsAt(t, s, StartTag) && Find(t, TagClose, s + |StartTag| + 1).Some?
  }

  /**
   * The backreference: a section the regex matches begins with a start
   * line and ends with an end marker that carry the same id, the id it
   * reports.
   */
  lemma {:induction false} SectionMarkersAgree(t: string, s: nat)
    requires SectionAt(t, s).Some?
    ensures var (sec, end) := SectionAt(t, s).value;
      && StartsAt(t, s, StartLine(sec.id))
      && end >= |EndMarker(sec.id)| && StartsAt(t, end - |EndMarker(sec.id)|, EndMarker(sec.id))
  {
    AtTagClosed(t, s);
    var q := Find(t, TagClose, s + |StartTag| + 1).value;
    var id := t[s + |StartTag|..q];
    var a := q + |TagClose|;
    AtSplit(t, s, q, id, a);
    StartLineAt(t, s, q);
    AfterIdMarks(t, id, a);
  }

  /** The rest of the section regex, after the start line of `id` that ends at `a`: a blank run ending in a newline, then `---`. */
  function SectionAfterId(t: string, id: string, a: nat): (r: Option<(Section, nat)>)
    requires a <= |t|
    ensures r.Some? ==> a < r.value.1 <= |t|
  {
    if !OpeningAfter(t, a) then None
    else SectionFromOpening(t, id, a, WsEnd(t, a) + 3)
  }

  /** The blank run from `a` ends in a newline and is followed by `---`. */
  predicate OpeningAfter(t: string, a: nat)
    requires a <= |t|
    ensures OpeningAfter(t, a) ==> WsEnd(t, a) + 3 <= |t|
  {
    var w := WsEnd(t, a);
    a < w && t[w - 1] == '\n' && StartsAt(t, w, "---")
  }

  /** After the opening `---` at `o - 3`: the metadata block up to the first closer a newline choice allows. */
  function SectionFromOpening(t: string, id: string, a: nat, o: nat): (r: Option<(Section, nat)>)
    requires a < o <= |t|
    ensures r.Some? ==> a < r.value.1 <= |t|
  {
    match TryOpen(t, o, WsEnd(t, o))
    case None => None
    case Some((g, e)) => SectionFromBody(t, id, a, g, e)
  }

  /** After the metadata block `t[g..e]` and its closer: the body up to the first end marker of `id` a newline choice allows. */
  function SectionFromBody(t: string, id: string, a: nat, g: nat, e: nat): (r: Option<(Section, nat)>)
    requires a < g <= e && CloserAt(t, e)
    ensures r.Some? ==> a < r.value.1 <= |t|
  {
    match TryBody(t, e + 4, WsEnd(t, e + 4), EndMarker(id))
    case None => None
    case Some((g3, m)) =>
      assert e < g3 <= m && m + |EndMarker(id)| <= |t|;
      Some((Section(id, t[g..e], t[g3..m]), m + |EndMarker(id)|))
  }

  /** A match found after the start line of `id` reports `id` and ends with the end marker of `id`. */
  predicate EndsWithMarker(t: string, id: string, r: (Section, nat)) {
    r.0.id == id && r.1 >= |EndMarker(id)| && StartsAt(t, r.1 - |EndMarker(id)|, EndMarker(id))
  }

  lemma {:induction false} FromBodyMarks(t: string, id: string, a: nat, g: nat, e: nat)
    requires a < g <= e && CloserAt(t, e) && TryBody(t, e + 4, WsEnd(t, e + 4), EndMarker(id)).Some?
    ensures SectionFromBody(t, id, a, g, e).Some?
    ensures EndsWithMarker(t, id, SectionFromBody(t, id, a, g, e).value)
  {
    var (g3, m) := TryBody(t, e + 4, WsEnd(t, e + 4), EndMarker(id)).value;
    BodySplit(t, id, a, g, e, g3, m);
    BodyEndsAt(t, e + 4, WsEnd(t, e + 4), EndMarker(id), m);
    MarkerEnd(t, id, Section(id, t[g..e], t[g3..m]), m);
  }

  lemma {:induction false} FromOpeningMarks(t: string, id: string, a: nat, o: nat)
    requires a < o <= |t| && SectionFromOpening(t, id, a, o).Some?
    ensures EndsWithMarker(t, id, SectionFromOpening(t, id, a, o).value)
  {
    var (g, e) := TryOpen(t, o, WsEnd(t, o)).value;
    OpeningSplit(t, id, a, o, g, e);
    BodyFound(t, id, a, g, e);
    FromBodyMarks(t, id, a, g, e);
  }

  lemma {:induction false} AfterIdMarks(t: string, id: string, a: nat)
    requires a <= |t| && SectionAfterId(t, id, a).Some?
    ensures EndsWithMarker(t, id, SectionAfterId(t, id, a).value)
  {
    FromOpeningMarks(t, id, a, WsEnd(t, a) + 3);
  }

  lemma {:induction false} MarkerEnd(t: string, id: string, sec: Section, m: nat)
    requires sec.id == id && StartsAt(t, m, EndMarker(id))
    ensures EndsWithMarker(t, id, (sec, m + |EndMarker(id)|))
  {
  }

  lemma StartLineAt(t: string, s: nat, q: nat)
    requires StartsAt(t, s, StartTag) && s + |StartTag| <= q && StartsAt(t, q, TagClose)
    ensures StartsAt(t, s, StartLine(t[s + |StartTag|..q]))
  {
    var id := t[s + |StartTag|..q];
    assert t[s..q + 4] == t[s..s + |StartTag|] + id + t[q..q + 4];
  }

  /** `SectionAt` at a start tag with a tag close after it. */
  lemma {:induction false} AtUnfold(t: string, s: nat)
    requires TagClosedAt(t, s)
    ensures SectionAt(t, s) == AfterTag(t, s, Find(t, TagClose, s + |StartTag| + 1).value)
  {
  }

  /** `SectionAfterId` once the opening `---` is found. */
  lemma {:induction false} AfterIdUnfold(t: string, id: string, a: nat)
    requires a <= |t| && OpeningAfter(t, a)
    ensures SectionAfterId(t, id, a) == SectionFromOpening(t, id, a, WsEnd(t, a) + 3)
  {
  }

  /** `SectionFromOpening` once the metadata block is found. */
  lemma {:induction false} FromOpeningUnfold(t: string, id: string, a: nat, o: nat)
    requires a < o <= |t| && TryOpen(t, o, WsEnd(t, o)).Some?
    ensures SectionFromOpening(t, id, a, o)
         == SectionFromBody(t, id, a, TryOpen(t, o, WsEnd(t, o)).value.0, TryOpen(t, o, WsEnd(t, o)).value.1)
  {
  }

  /** `SectionFromBody` once the body is found. */
  lemma {:induction false} FromBodyUnfold(t: string, id: string, a: nat, g: nat, e: nat)
    requires a < g <= e && CloserAt(t, e) && TryBody(t, e + 4, WsEnd(t, e + 4), EndMarker(id)).Some?
    ensures var (g3, m) := TryBody(t, e + 4, WsEnd(t, e + 4), EndMarker(id)).value;
      SectionFromBody(t, id, a, g, e) == Some((Section(id, t[g..e], t[g3..m]), m + |EndMarker(id)|))
  {
  }

  lemma {:induction false} AtTagClosed(t: string, s: nat)
    requires SectionAt(t, s).Some?
    ensures TagClosedAt(t, s)
  {
  }

  lemma {:induction false} BodyFound(t: string, id: string, a: nat, g: nat, e: nat)
    requires a < g <= e && CloserAt(t, e) && SectionFromBody(t, id, a, g, e).Some?
    ensures TryBody(t, e + 4, WsEnd(t, e + 4), EndMarker(id)).Some?
  {
  }

  /** `SectionAt` at a start tag with the id `t[s + |StartTag|..q]`. */
  lemma {:induction false} AtSplit(t: string, s: nat, q: nat, id: string, a: nat)
    requires TagClosedAt(t, s) && Find(t, TagClose, s + |StartTag| + 1).value == q
    requires t[s + |StartTag|..q] == id && a == q + |TagClose|
    ensures a <= |t| && SectionAt(t, s) == SectionAfterId(t, id, a)
  {
    AtUnfold(t, s);
    AfterTagUnfold(t, s, q);
  }

  lemma {:induction false} AfterTagUnfold(t: string, s: nat, q: nat)
    requires s + |StartTag| <= q && q + |TagClose| <= |t|
    ensures AfterTag(t, s, q) == SectionAfterId(t, t[s + |StartTag|..q], q + |TagClose|)
  {
  }

  /** `SectionAfterId` with the opening `---` ending at `o`. */
  lemma {:induction false} AfterIdOpens(t: string, id: string, a: nat, o: nat)
    requires a <= |t| && OpeningAfter(t, a) && o == WsEnd(t, a) + 3
    ensures SectionAfterId(t, id, a) == SectionFromOpening(t, id, a, o)
  {
    AfterIdUnfold(t, id, a);
  }

  /** `SectionFromOpening` with the metadata block `t[g..e]`. */
  lemma {:induction false} OpeningSplit(t: string, id: string, a: nat, o: nat, g: nat, e: nat)
    requires a < o <= |t|
    requires TryOpen(t, o, WsEnd(t, o)).Some? && TryOpen(t, o, WsEnd(t, o)).value == (g, e)
    ensures a < g <= e && CloserAt(t, e)
    ensures SectionFromOpening(t, id, a, o) == SectionFromBody(t, id, a, g, e)
  {
    FromOpeningUnfold(t, id, a, o);
  }

  /** `SectionAfterId` with the opening `---` ending at `o` and the metadata block `t[g..e]`. */
  lemma {:induction false} AfterIdSplit(t: string, id: string, a: nat, o: nat, g: nat, e: nat)
    requires a <= |t| && OpeningAfter(t, a) && o == WsEnd(t, a) + 3
    requires TryOpen(t, o, WsEnd(t, o)).Some? && TryOpen(t, o, WsEnd(t, o)).value == (g, e)
    ensures a < g <= e && CloserAt(t, e)
    ensures SectionAfterId(t, id, a) == SectionFromBody(t, id, a, g, e)
  {
    AfterIdUnfold(t, id, a);
    FromOpeningUnfold(t, id, a, o);
  }

  /** `SectionFromBody` with the body `t[g3..m]`. */
  lemma {:induction false} BodySplit(t: string, id: string, a: nat, g: nat, e: nat, g3: nat, m: nat)
    requires a < g <= e && CloserAt(t, e)
    requires TryBody(t, e + 4, WsEnd(t, e + 4), EndMarker(id)).Some?
    requires TryBody(t, e + 4, WsEnd(t, e + 4), EndMarker(id)).value == (g3, m)
    ensures SectionFromBody(t, id, a, g, e) == Some((Section(id, t[g..e], t[g3..m]), m + |EndMarker(id)|))
  {
    FromBodyUnfold(t, id, a, g, e);
  }

  /** `SectionFromBody` with the metadata block `t[g..e]` named `y`, the body `t[g3..m]` and the end after the end marker. */
  lemma {:induction false} BodyNamed(t: string, id: string, a: nat, g: nat, e: nat, g3: nat, m: nat,
                                     y: string, body: string, end: nat)
    requires a < g <= e && CloserAt(t, e)
    requires TryBody(t, e + 4, WsEnd(t, e + 4), EndMarker(id)).Some?
    requires TryBody(t, e + 4, WsEnd(t, e + 4), EndMarker(id)).value == (g3, m)
    requires t[g..e] == y && g3 <= m <= |t| && body == t[g3..m] && end == m + |EndMarker(id)|
    ensures SectionFromBody(t, id, a, g, e) == Some((Section(id, y, body), end))
  {
    BodySplit(t, id, a, g, e, g3, m);
  }

  /**
   * The section regex at `s`, once each of its searches is known: the id
   * up to the tag close at `q`, the opening `---` ending at `o`, the
   * metadata block `y` at `t[g..e]`, the body at `t[g3..m]` and the end
   * `end` just after the end marker.
   */
  lemma {:induction false} SectionChain(t: string, s: nat, q: nat, id: string, a: nat, o: nat, g: nat, e: nat, g3: nat, m: nat,
                                        y: string, body: string, end: nat)
    requires TagClosedAt(t, s) && Find(t, TagClose, s + |StartTag| + 1).value == q
    requires t[s + |StartTag|..q] == id && a == q + |TagClose|
    requires a <= |t| && OpeningAfter(t, a) && o == WsEnd(t, a) + 3
    requires TryOpen(t, o, WsEnd(t, o)).Some? && TryOpen(t, o, WsEnd(t, o)).value == (g, e)
    requires TryBody(t, e + 4, WsEnd(t, e + 4), EndMarker(id)).Some?
    requires TryBody(t, e + 4, WsEnd(t, e + 4), EndMarker(id)).value == (g3, m)
    requires g <= e <= |t| && t[g..e] == y && g3 <= m <= |t| && body == t[g3..m] && end == m + |EndMarker(id)|
    ensures SectionAt(t, s) == Some((Section(id, y, body), end))
  {
    AtSplit(t, s, q, id, a);
    AfterIdSplit(t, id, a, o, g, e);
    BodyNamed(t, id, a, g, e, g3, m, y, body, end);
  }

  /** `re.finditer`: from `pos`, every match in order; a failed start tag is passed over. */
  function Sections(t: string, pos: nat): seq<Section>
    decreases |t| + 1 - pos, 1
  {
    if pos > |t| then []
    else
      match Find(t, StartTag, pos)
      case None => []
      case Some(s) => SectionsAtTag(t, s)
  }

  /** The matches from a start tag found at `s` on: its section if the regex matches there, then the rest. */
  function SectionsAtTag(t: string, s: nat): seq<Section>
    requires s <= |t|
    decreases |t| + 1 - s, 0
  {
    match SectionAt(t, s)
    case Some((sec, end)) => [sec] + Sections(t, end)
    case None => Sections(t, s + 1)
  }

  /** `metadata.get` on something other than a mapping raises; the whole parse fails with it. */
  datatype GroupError = MetadataNotMapping(sectionId: string)

  function Prepend(acc: seq<Note>, r: Result<seq<Note>, GroupError>): Result<seq<Note>, GroupError> {
    match r
    case Success(ns) => Success(acc + ns)
    case Failure(e) => Failure(e)
  }

  /**
   * The loop body of `parse_file` over the matches: a YAML error skips the
   * section, a non-mapping aborts, a mapping gives a note with the section's
   * id as fallback and the stripped body.
   */
  function NotesOf(secs: seq<Section>, codec: YamlCodec, now: string): Result<seq<Note>, GroupError>
    decreases |secs|
  {
    if secs == [] then Success([])
    else
      match codec.load(secs[0].front)
      case YamlError => NotesOf(secs[1..], codec, now)
      case NotMapping => Failure(MetadataNotMapping(secs[0].id))
      case Mapping(md) =>
        Prepend([SectionNote(secs[0], md, now)], NotesOf(secs[1..], codec, now))
  }

  /** The note a section with a mapping becomes. */
  function SectionNote(sec: Section, md: Metadata, now: string): Note {
    NoteFromMeta(md, sec.id, Strip(sec.body), now, None)
  }

  /**
   * A section whose metadata loads to a mapping gives the first note of the
   * parse when the rest parses: each key present in the mapping gives its
   * value, each absent key its default (the id from the start marker,
   * `default`, `Untitled`, now for both timestamps, nothing for tags,
   * properties and links), the stripped body is the content, and no path
   * is set.
   */
  lemma SectionNoteFields(secs: seq<Section>, codec: YamlCodec, now: string, md: Metadata)
    requires secs != [] && codec.load(secs[0].front) == Mapping(md)
    requires NotesOf(secs[1..], codec, now).Success?
    ensures NotesOf(secs, codec, now).Success? && NotesOf(secs, codec, now).value != []
    ensures var n := NotesOf(secs, codec, now).value[0];
      && (md.id.Some? ==> n.id == md.id.value) && (md.id.None? ==> n.id == secs[0].id)
      && (md.moduleName.Some? ==> n.moduleName == md.moduleName.value) && (md.moduleName.None? ==> n.moduleName == "default")
      && (md.title.Some? ==> n.title == md.title.value) && (md.title.None? ==> n.title == "Untitled")
      && (md.created.Some? ==> n.created == md.created.value) && (md.created.None? ==> n.created == now)
      && (md.modified.Some? ==> n.modified == md.modified.value) && (md.modified.None? ==> n.modified == now)
      && (md.tags.Some? ==> n.tags == md.tags.value) && (md.tags.None? ==> n.tags == [])
      && (md.properties.Some? ==> n.properties == md.properties.value) && (md.properties.None? ==> n.properties == map[])
      && (md.links.Some? ==> n.links == md.links.value) && (md.links.None? ==> n.links == [])
      && n.content == Strip(secs[0].body) && n.filePath == None
  {
  }

  lemma NotesOfStep(secs: seq<Section>, i: nat, codec: YamlCodec, now: string)
    requires i < |secs|
    ensures codec.load(secs[i].front).YamlError? ==> NotesOf(secs[i..], codec, now) == NotesOf(secs[i + 1..], codec, now)
    ensures codec.load(secs[i].front).NotMapping? ==> NotesOf(secs[i..], codec, now) == Failure(MetadataNotMapping(secs[i].id))
    ensures codec.load(secs[i].front).Mapping? ==>
      (NotesOf(secs[i..], codec, now)
       == Prepend([SectionNote(secs[i], codec.load(secs[i].front).meta, now)], NotesOf(secs[i + 1..], codec, now)))
  {
    assert secs[i..][1..] == secs[i + 1..];
  }

  /** `parse_file` applied to the text already read. */
  method ParseFile(text: string, codec: YamlCodec, now: string) returns (r: Result<seq<Note>, GroupError>)
    ensures r == NotesOf(Sections(text, 0), codec, now)
  {
    r := NotesFromSections(Sections(text, 0), codec, now);
  }

  /** The loop of `parse_file` over the matches. */
  method NotesFromSections(secs: seq<Section>, codec: YamlCodec, now: string) returns (r: Result<seq<Note>, GroupError>)
    ensures r == NotesOf(secs, codec, now)
  {
    var acc: seq<Note> := [];
    var i := 0;
    assert secs[0..] == secs;
    assert NotesOf(secs, codec, now) == Prepend([], NotesOf(secs, codec, now)) by {
      if NotesOf(secs, codec, now).Success? {
        assert [] + NotesOf(secs, codec, now).value == NotesOf(secs, codec, now).value;
      }
    }
    while i < |secs|
      invariant 0 <= i <= |secs|
      invariant NotesOf(secs, codec, now) == Prepend(acc, NotesOf(secs[i..], codec, now))
    {
      NotesOfStep(secs, i, codec, now);
      match codec.load(secs[i].front) {
        case YamlError =>
        case NotMapping =>
          return Failure(MetadataNotMapping(secs[i].id));
        case Mapping(md) =>
          var note := SectionNote(secs[i], md, now);
          PrependAssoc(acc, [note], NotesOf(secs[i + 1..], codec, now));
          acc := acc + [note];
      }
      i := i + 1;
    }
    assert secs[i..] == [];
    assert acc + [] == acc;
    return Success(acc);
  }

  lemma PrependAssoc(a: seq<Note>, b: seq<Note>, r: Result<seq<Note>, GroupError>)
    ensures Prepend(a, Prepend(b, r)) == Prepend(a + b, r)
  {
    if r.Success? {
      assert a + (b + r.value) == a + b + r.value;
    }
  }
}
