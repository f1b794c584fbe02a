/**
 * The SQLite index both prototypes keep beside their files: a notes table,
 * a tags table keyed by (note, tag), a links table keyed by (source, target,
 * type) and a full-text table. Each table is a sequence of rows in rowid
 * order; a statement is a function from tables to tables.
 */
module Index {
  import opened Wrappers
  import opened Notes

  /**
   * The two schemas differ in one constraint: the one-note-per-file store
   * also declares `UNIQUE(file_path)`, so a replace there also evicts the
   * row of another note stored at the same path.
   */
  datatype Schema = Flat | Grouped

  datatype NoteRow = NoteRow(
    id: string, moduleName: string, title: string, content: string,
    created: string, modified: string, filePath: string, properties: Props)

  datatype TagRow = TagRow(noteId: string, tag: string)

  datatype LinkRow = LinkRow(source: string, target: string, linkType: string, context: string)

  datatype FtsRow = FtsRow(id: string, title: string, content: string, tags: string)

  datatype Tables = Tables(notes: seq<NoteRow>, tags: seq<TagRow>, links: seq<LinkRow>, fts: seq<FtsRow>)

  /** Why `index_note` raises: a missing file path violates `NOT NULL`, a repeated key a primary key. */
  datatype IndexError = NullFilePath | DuplicateTag(tag: string) | DuplicateLink(target: string, linkType: string)

  const Empty: Tables := Tables([], [], [], [])

  // ---------------------------------------------------------------------
  // Selecting rows

  /** The rows a `WHERE` clause keeps, in rowid order. */
  function Filter<T(!new)>(s: seq<T>, p: T -> bool): (r: seq<T>)
    ensures |r| <= |s|
    ensures forall x :: x in r <==> x in s && p(x)
  {
    if s == [] then [] else (if p(s[0]) then [s[0]] else []) + Filter(s[1..], p)
  }

  lemma {:induction false} FilterAppend<T(!new)>(a: seq<T>, b: seq<T>, p: T -> bool)
    ensures Filter(a + b, p) == Filter(a, p) + Filter(b, p)
  {
    if a != [] {
      assert (a + b)[0] == a[0] && (a + b)[1..] == a[1..] + b;
      FilterStep(a + b, p);
      FilterStep(a, p);
      FilterAppend(a[1..], b, p);
      var h, fa, fb := if p(a[0]) then [a[0]] else [], Filter(a[1..], p), Filter(b, p);
      assert h + (fa + fb) == (h + fa) + fb;
    } else {
      assert a + b == b;
    }
  }

  /** One step of the filter: the head if it passes, then the filtered tail. */
  lemma FilterStep<T(!new)>(s: seq<T>, p: T -> bool)
    requires s != []
    ensures Filter(s, p) == (if p(s[0]) then [s[0]] else []) + Filter(s[1..], p)
  {
  }

  lemma {:induction false} FilterAll<T(!new)>(s: seq<T>, p: T -> bool)
    requires forall i :: 0 <= i < |s| ==> p(s[i])
    ensures Filter(s, p) == s
  {
    if s != [] {
      FilterAll(s[1..], p);
    }
  }

  lemma FilterNone<T(!new)>(s: seq<T>, p: T -> bool)
    requires forall x :: x in s ==> !p(x)
    ensures Filter(s, p) == []
  {
    if Filter(s, p) != [] {
      assert Filter(s, p)[0] in Filter(s, p);
    }
  }

  /** Filtering by a weaker condition first changes nothing. */
  lemma {:induction false} FilterFilter<T(!new)>(s: seq<T>, p: T -> bool, q: T -> bool)
    requires forall x :: x in s && q(x) ==> p(x)
    ensures Filter(Filter(s, p), q) == Filter(s, q)
  {
    if s != [] {
      FilterFilter(s[1..], p, q);
      var h := if p(s[0]) then [s[0]] else [];
      FilterAppend(h, Filter(s[1..], p), q);
      assert Filter(h, q) == if q(s[0]) then [s[0]] else [] by {
        if p(s[0]) {
          assert h[1..] == [];
        }
      }
    }
  }

  function HasId(id: string): NoteRow -> bool { (r: NoteRow) => r.id == id }
  function TagOf(id: string): TagRow -> bool { (r: TagRow) => r.noteId == id }
  function NotTagOf(id: string): TagRow -> bool { (r: TagRow) => r.noteId != id }
  function LinkFrom(id: string): LinkRow -> bool { (r: LinkRow) => r.source == id }
  function NotLinkFrom(id: string): LinkRow -> bool { (r: LinkRow) => r.source != id }
  function NotFtsOf(id: string): FtsRow -> bool { (r: FtsRow) => r.id != id }
  function NotId(id: string): NoteRow -> bool { (r: NoteRow) => r.id != id }
  function LinkTo(id: string): LinkRow -> bool { (r: LinkRow) => r.target == id }
  function HasTag(tag: string): TagRow -> bool { (r: TagRow) => r.tag == tag }

  /** The rows an `INSERT OR REPLACE` of a row for `id` at `path` leaves in place. */
  function Survives(schema: Schema, id: string, path: string): NoteRow -> bool {
    (r: NoteRow) => r.id != id && (schema.Grouped? || r.filePath != path)
  }

  // ---------------------------------------------------------------------
  // The statements of `index_note`

  function RowOf(note: Note, path: string): NoteRow {
    NoteRow(note.id, note.moduleName, note.title, note.content, note.created, note.modified, path, note.properties)
  }

  /** `INSERT OR REPLACE INTO notes`: conflicting rows go, the new row gets the next rowid. */
  function ReplaceRow(rows: seq<NoteRow>, schema: Schema, row: NoteRow): seq<NoteRow> {
    Filter(rows, Survives(schema, row.id, row.filePath)) + [row]
  }

  function TagRows(id: string, tags: seq<string>): seq<TagRow> {
    seq(|tags|, i requires 0 <= i < |tags| => TagRow(id, tags[i]))
  }

  /** A link as `index_note` stores it: type `reference` and an empty context when absent. */
  function StoredLink(id: string, l: RawLink): LinkRow {
    LinkRow(id, l.target, l.linkType.GetOr("reference"), l.context.GetOr(""))
  }

  function LinkRows(id: string, links: seq<RawLink>): seq<LinkRow> {
    seq(|links|, i requires 0 <= i < |links| => StoredLink(id, links[i]))
  }

  /** The part of a stored link its primary key holds besides the source. */
  function LinkKey(l: RawLink): (string, string) {
    (l.target, l.linkType.GetOr("reference"))
  }

  function LinkKeys(links: seq<RawLink>): seq<(string, string)> {
    seq(|links|, i requires 0 <= i < |links| => LinkKey(links[i]))
  }

  /** `' '.join(tags)`. */
  function JoinTags(tags: seq<string>): string {
    if |tags| == 0 then ""
    else if |tags| == 1 then tags[0]
    else tags[0] + " " + JoinTags(tags[1..])
  }

  /** The first position from `i` whose element already occurred earlier: where a key insert fails. */
  function FirstDupFrom<T(==)>(s: seq<T>, i: nat): (r: Option<nat>)
    decreases |s| - i
    ensures r.Some? ==> i <= r.value < |s| && s[r.value] in s[..r.value]
    ensures r.Some? ==> forall j :: i <= j < r.value ==> s[j] !in s[..j]
    ensures r.None? ==> forall j :: i <= j < |s| ==> s[j] !in s[..j]
  {
    if i >= |s| then None
    else if s[i] in s[..i] then Some(i)
    else FirstDupFrom(s, i + 1)
  }

  /** The row replace and the two deletes that open `index_note`. */
  function Cleared(t: Tables, schema: Schema, note: Note, path: string): Tables {
    Tables(ReplaceRow(t.notes, schema, RowOf(note, path)),
           Filter(t.tags, NotTagOf(note.id)),
           Filter(t.links, NotLinkFrom(note.id)),
           t.fts)
  }

  /**
   * `index_note`: the tables afterwards and the error it raised, if any.
   * A failing insert raises after the earlier statements of the same
   * transaction have run; the connection keeps seeing them.
   */
  function Upsert(t: Tables, schema: Schema, note: Note, path: Option<string>): (Tables, Option<IndexError>) {
    if path.None? then (t, Some(NullFilePath))
    else
      var b := Cleared(t, schema, note, path.value);
      match FirstDupFrom(note.tags, 0)
      case Some(k) =>
        (b.(tags := b.tags + TagRows(note.id, note.tags[..k])), Some(DuplicateTag(note.tags[k])))
      case None =>
        var b2 := b.(tags := b.tags + TagRows(note.id, note.tags));
        match FirstDupFrom(LinkKeys(note.links), 0)
        case Some(k) =>
          (b2.(links := b2.links + LinkRows(note.id, note.links[..k])),
           Some(DuplicateLink(LinkKeys(note.links)[k].0, LinkKeys(note.links)[k].1)))
        case None =>
          (b2.(links := b2.links + LinkRows(note.id, note.links),
               fts := Filter(b2.fts, NotFtsOf(note.id)) + [FtsRow(note.id, note.title, note.content, JoinTags(note.tags))]),
           None)
  }

  // ---------------------------------------------------------------------
  // Result order

  /** `le` relates every pair one way or the other, and chains. */
  ghost predicate TotalOrder<T(!new)>(le: (T, T) -> bool) {
    && (forall a, b :: le(a, b) || le(b, a))
    && (forall a, b, c :: le(a, b) && le(b, c) ==> le(a, c))
  }

  predicate Ascending<T>(s: seq<T>, le: (T, T) -> bool) {
    forall i, j :: 0 <= i < j < |s| ==> le(s[i], s[j])
  }

  /** `x` placed before the first element it is `le` to. */
  function InsertBy<T>(x: T, s: seq<T>, le: (T, T) -> bool): (r: seq<T>)
    ensures multiset(r) == multiset(s) + multiset{x}
  {
    if s == [] then [x]
    else if le(x, s[0]) then [x] + s
    else
      assert s == [s[0]] + s[1..];
      [s[0]] + InsertBy(x, s[1..], le)
  }

  /** The rows as an index scan or an `ORDER BY` returns them: ordered by `le`. */
  function SortBy<T>(s: seq<T>, le: (T, T) -> bool): (r: seq<T>)
    ensures multiset(r) == multiset(s)
  {
    if s == [] then []
    else
      assert s == [s[0]] + s[1..];
      InsertBy(s[0], SortBy(s[1..], le), le)
  }

  lemma {:induction false} InsertByAscending<T(!new)>(x: T, s: seq<T>, le: (T, T) -> bool)
    requires TotalOrder(le) && Ascending(s, le)
    ensures Ascending(InsertBy(x, s, le), le)
  {
    var r := InsertBy(x, s, le);
    if s == [] {
    } else if le(x, s[0]) {
      forall i, j | 0 <= i < j < |r| ensures le(r[i], r[j]) {
        if i == 0 && j > 1 {
          assert le(x, s[0]) && le(s[0], s[j - 1]);
        }
      }
    } else {
      assert le(s[0], x);
      InsertByAscending(x, s[1..], le);
      var tail := InsertBy(x, s[1..], le);
      forall i, j | 0 <= i < j < |r| ensures le(r[i], r[j]) {
        if i == 0 {
          assert r[j] in multiset(tail);
          assert r[j] in multiset(s[1..]) + multiset{x};
          if r[j] != x {
            var k :| 0 <= k < |s[1..]| && s[1..][k] == r[j];
            assert s[k + 1] == r[j];
          }
        } else {
          assert r[i] == tail[i - 1] && r[j] == tail[j - 1];
        }
      }
    }
  }

  /** Sorting by a total order gives the same rows in ascending order. */
  lemma {:induction false} SortByAscending<T(!new)>(s: seq<T>, le: (T, T) -> bool)
    requires TotalOrder(le)
    ensures Ascending(SortBy(s, le), le) && multiset(SortBy(s, le)) == multiset(s)
  {
    if s != [] {
      SortByAscending(s[1..], le);
      InsertByAscending(s[0], SortBy(s[1..], le), le);
    }
  }

  /** Text order, as SQLite's BINARY collation compares. */
  function TextLe(): (string, string) -> bool {
    (a: string, b: string) => StrLe(a, b)
  }

  /** The order of a (target, type) key, as the links table's key orders it after the source: target, then type. */
  predicate PairLe(a: (string, string), b: (string, string)) {
    if a.0 == b.0 then StrLe(a.1, b.1) else StrLe(a.0, b.0)
  }

  /** The key order on (target, type) pairs. */
  function PairKeyLe(): ((string, string), (string, string)) -> bool {
    (a: (string, string), b: (string, string)) => PairLe(a, b)
  }

  /** The key order on links read back from the table. */
  function LinkKeyLe(): (RawLink, RawLink) -> bool {
    (a: RawLink, b: RawLink) => PairLe((a.target, a.linkType.GetOr("")), (b.target, b.linkType.GetOr("")))
  }

  lemma TextLeTotal()
    ensures TotalOrder(TextLe())
  {
    forall a: string, b: string ensures StrLe(a, b) || StrLe(b, a) {
      StrLeTotal(a, b);
    }
    forall a: string, b: string, c: string | StrLe(a, b) && StrLe(b, c) ensures StrLe(a, c) {
      StrLeTrans(a, b, c);
    }
  }

  lemma PairKeyLeTotal()
    ensures TotalOrder(PairKeyLe())
  {
    forall a: (string, string), b: (string, string) ensures PairLe(a, b) || PairLe(b, a) {
      StrLeTotal(a.0, b.0);
      StrLeTotal(a.1, b.1);
    }
    forall a: (string, string), b: (string, string), c: (string, string) | PairLe(a, b) && PairLe(b, c)
      ensures PairLe(a, c)
    {
      PairLeTrans(a, b, c);
    }
  }

  lemma LinkKeyLeTotal()
    ensures TotalOrder(LinkKeyLe())
  {
    PairKeyLeTotal();
    var le := LinkKeyLe();
    forall a: RawLink, b: RawLink ensures le(a, b) || le(b, a) {
      assert PairKeyLe()((a.target, a.linkType.GetOr("")), (b.target, b.linkType.GetOr(""))) || PairKeyLe()((b.target, b.linkType.GetOr("")), (a.target, a.linkType.GetOr("")));
    }
    forall a: RawLink, b: RawLink, c: RawLink | le(a, b) && le(b, c) ensures le(a, c) {
      PairLeTrans((a.target, a.linkType.GetOr("")), (b.target, b.linkType.GetOr("")), (c.target, c.linkType.GetOr("")));
    }
  }

  lemma PairLeTrans(a: (string, string), b: (string, string), c: (string, string))
    requires PairLe(a, b) && PairLe(b, c)
    ensures PairLe(a, c)
  {
    if a.0 == b.0 && b.0 == c.0 {
      StrLeTrans(a.1, b.1, c.1);
    } else if a.0 != b.0 && b.0 != c.0 {
      StrLeTrans(a.0, b.0, c.0);
      if a.0 == c.0 {
        StrLeAntisym(a.0, b.0);
      }
    }
  }

  /** Two texts each at most the other are equal. */
  lemma {:induction false} StrLeAntisym(a: string, b: string)
    requires StrLe(a, b) && StrLe(b, a)
    ensures a == b
  {
    if |a| > 0 {
      StrLeAntisym(a[1..], b[1..]);
      assert a == [a[0]] + a[1..] && b == [b[0]] + b[1..];
    }
  }

  // ---------------------------------------------------------------------
  // Reading a note back

  function TagsOf(tags: seq<TagRow>, id: string): seq<string> {
    var rows := Filter(tags, TagOf(id));
    seq(|rows|, i requires 0 <= i < |rows| => rows[i].tag)
  }

  /** The links `get_note` returns: every key present. */
  function LinksOf(links: seq<LinkRow>, id: string): seq<RawLink> {
    var rows := Filter(links, LinkFrom(id));
    seq(|rows|, i requires 0 <= i < |rows| => RawLink(rows[i].target, Some(rows[i].linkType), Some(rows[i].context)))
  }

  /**
   * `get_note`: the note row for `id` with its tags and links. The tag
   * query is answered from the `(note_id, tag)` key, so tags come back in
   * text order; the link query from the `(source_id, target_id, link_type)`
   * key, so links come back by target, then type. The grouped store's note
   * has no file path field.
   */
  function Fetch(t: Tables, schema: Schema, id: string): Option<Note> {
    var rows := Filter(t.notes, HasId(id));
    if rows == [] then None
    else
      var r := rows[0];
      Some(Note(r.id, r.moduleName, r.title, r.content, r.created, r.modified,
                SortBy(TagsOf(t.tags, id), TextLe()), r.properties, SortBy(LinksOf(t.links, id), LinkKeyLe()),
                if schema.Flat? then Some(r.filePath) else None))
  }

  /** A link with its defaults filled in, as it reads back from the index. */
  function Normalized(l: RawLink): RawLink {
    RawLink(l.target, Some(l.linkType.GetOr("reference")), Some(l.context.GetOr("")))
  }

  /** What reading back an indexed note gives: its tags in text order, its links normalized and in key order, and the file path as the schema keeps it. */
  function Stored(note: Note, schema: Schema, path: string): Note {
    note.(tags := SortBy(note.tags, TextLe()),
          links := SortBy(NormalizedLinks(note.links), LinkKeyLe()),
          filePath := if schema.Flat? then Some(path) else None)
  }

  function NormalizedLinks(links: seq<RawLink>): seq<RawLink> {
    seq(|links|, i requires 0 <= i < |links| => Normalized(links[i]))
  }

  // ---------------------------------------------------------------------
  // The index object

  /** `NoteDatabase`: the tables behind one connection, under one of the two schemas. */
  class NoteDatabase {
    var tables: Tables
    const schema: Schema

    /** Opening a fresh database: `_create_tables` on an empty file. */
    constructor (schema: Schema)
      ensures tables == Empty && this.schema == schema
    {
      tables := Empty;
      this.schema := schema;
    }

    /**
     * `index_note`, statement by statement: replace the note row, delete
     * the note's tags and links, insert its tags and then its links one
     * at a time, and replace its full-text row. `path` is the note's own
     * `file_path` in the flat store and the containing file in the grouped one.
     */
    method IndexNote(note: Note, path: Option<string>) returns (err: Option<IndexError>)
      modifies this
      ensures (tables, err) == Upsert(old(tables), schema, note, path)
    {
      if path.None? {
        return Some(NullFilePath);
      }
      tables := tables.(notes := ReplaceRow(tables.notes, schema, RowOf(note, path.value)));
      tables := tables.(tags := Filter(tables.tags, NotTagOf(note.id)));
      tables := tables.(links := Filter(tables.links, NotLinkFrom(note.id)));
      var dupTag := InsertTags(note.id, note.tags);
      if dupTag.Some? {
        return Some(DuplicateTag(note.tags[dupTag.value]));
      }
      var dupLink := InsertLinks(note.id, note.links);
      if dupLink.Some? {
        var row := StoredLink(note.id, note.links[dupLink.value]);
        return Some(DuplicateLink(row.target, row.linkType));
      }
      tables := tables.(fts := Filter(tables.fts, NotFtsOf(note.id)));
      tables := tables.(fts := tables.fts + [FtsRow(note.id, note.title, note.content, JoinTags(note.tags))]);
      return None;
    }

    /**
     * Deleting a note's row, with the `ON DELETE CASCADE` the schema
     * declares carried out on its tags and links (the corrected deletion;
     * see `DeleteRowAsWritten`).
     */
    method DeleteNote(id: string)
      modifies this
      ensures tables == RemoveNote(old(tables), id)
    {
      tables := tables.(notes := Filter(tables.notes, NotId(id)));
      tables := tables.(tags := Filter(tables.tags, NotTagOf(id)));
      tables := tables.(links := Filter(tables.links, NotLinkFrom(id)));
    }

    /** The tag loop of `index_note`: inserts until a (note, tag) key repeats, and says where. */
    method InsertTags(id: string, ts: seq<string>) returns (dup: Option<nat>)
      requires forall x :: x in tables.tags ==> x.noteId != id
      modifies this
      ensures dup == FirstDupFrom(ts, 0)
      ensures dup.Some? ==> tables == old(tables).(tags := old(tables.tags) + TagRows(id, ts[..dup.value]))
      ensures dup.None? ==> tables == old(tables).(tags := old(tables.tags) + TagRows(id, ts))
    {
      ghost var b := tables.tags;
      for i := 0 to |ts|
        invariant FirstDupFrom(ts, 0) == FirstDupFrom(ts, i)
        invariant tables == old(tables).(tags := b + TagRows(id, ts[..i]))
      {
        var row := TagRow(id, ts[i]);
        TagConflict(b, id, ts, i);
        if row in tables.tags {
          return Some(i);
        }
        tables := tables.(tags := tables.tags + [row]);
      }
      assert ts[..|ts|] == ts;
      return None;
    }

    /** The link loop of `index_note`: inserts until a (source, target, type) key repeats, and says where. */
    method InsertLinks(id: string, ls: seq<RawLink>) returns (dup: Option<nat>)
      requires forall x :: x in tables.links ==> x.source != id
      modifies this
      ensures dup == FirstDupFrom(LinkKeys(ls), 0)
      ensures dup.Some? ==> dup.value < |ls| && tables == old(tables).(links := old(tables.links) + LinkRows(id, ls[..dup.value]))
      ensures dup.None? ==> tables == old(tables).(links := old(tables.links) + LinkRows(id, ls))
    {
      ghost var b := tables.links;
      for i := 0 to |ls|
        invariant FirstDupFrom(LinkKeys(ls), 0) == FirstDupFrom(LinkKeys(ls), i)
        invariant tables == old(tables).(links := b + LinkRows(id, ls[..i]))
      {
        var row := StoredLink(id, ls[i]);
        LinkConflict(b, id, ls, i);
        if KeyTaken(tables.links, row) {
          return Some(i);
        }
        tables := tables.(links := tables.links + [row]);
      }
      assert ls[..|ls|] == ls;
      return None;
    }
  }

  /** A stored link with the same primary key as `row` exists. */
  predicate KeyTaken(links: seq<LinkRow>, row: LinkRow) {
    exists j :: 0 <= j < |links| && links[j].source == row.source && links[j].target == row.target && links[j].linkType == row.linkType
  }

  /** Inserting the `i`-th tag after the earlier ones conflicts exactly when the tag occurred before. */
  lemma TagConflict(base: seq<TagRow>, id: string, ts: seq<string>, i: nat)
    requires forall x :: x in base ==> x.noteId != id
    requires i < |ts|
    ensures TagRow(id, ts[i]) in base + TagRows(id, ts[..i]) <==> ts[i] in ts[..i]
    ensures TagRows(id, ts[..i + 1]) == TagRows(id, ts[..i]) + [TagRow(id, ts[i])]
  {
    if ts[i] in ts[..i] {
      var j :| 0 <= j < i && ts[j] == ts[i];
      assert TagRows(id, ts[..i])[j] == TagRow(id, ts[i]);
    }
    if TagRow(id, ts[i]) in TagRows(id, ts[..i]) {
      var j :| 0 <= j < i && TagRows(id, ts[..i])[j] == TagRow(id, ts[i]);
      assert ts[..i][j] == ts[i];
    }
  }

  /** Inserting the `i`-th link after the earlier ones conflicts exactly when its key occurred before. */
  lemma LinkConflict(base: seq<LinkRow>, id: string, ls: seq<RawLink>, i: nat)
    requires forall x :: x in base ==> x.source != id
    requires i < |ls|
    ensures KeyTaken(base + LinkRows(id, ls[..i]), StoredLink(id, ls[i])) <==> LinkKeys(ls)[i] in LinkKeys(ls)[..i]
    ensures LinkRows(id, ls[..i + 1]) == LinkRows(id, ls[..i]) + [StoredLink(id, ls[i])]
  {
    var all := base + LinkRows(id, ls[..i]);
    var row := StoredLink(id, ls[i]);
    if LinkKeys(ls)[i] in LinkKeys(ls)[..i] {
      var j :| 0 <= j < i && LinkKeys(ls)[..i][j] == LinkKeys(ls)[i];
      assert all[|base| + j] == StoredLink(id, ls[j]);
    }
    if KeyTaken(all, row) {
      var j :| 0 <= j < |all| && all[j].source == row.source && all[j].target == row.target && all[j].linkType == row.linkType;
      if j >= |base| {
        assert all[j] == StoredLink(id, ls[j - |base|]);
        assert LinkKeys(ls)[..i][j - |base|] == LinkKeys(ls)[i];
      }
    }
  }

  // ---------------------------------------------------------------------
  // What `index_note` guarantees

  /** No two elements of `s` share a key. */
  predicate Unique<T, K(==)>(s: seq<T>, key: T -> K) {
    forall i, j :: 0 <= i < j < |s| ==> key(s[i]) != key(s[j])
  }

  predicate Distinct<T(==)>(s: seq<T>) {
    forall i, j :: 0 <= i < j < |s| ==> s[i] != s[j]
  }

  function RowId(): NoteRow -> string { (r: NoteRow) => r.id }
  function RowPath(): NoteRow -> string { (r: NoteRow) => r.filePath }
  function TagKey(): TagRow -> TagRow { (r: TagRow) => r }
  function LinkRowKey(): LinkRow -> (string, string, string) { (r: LinkRow) => (r.source, r.target, r.linkType) }
  function FtsId(): FtsRow -> string { (r: FtsRow) => r.id }

  /**
   * The constraints the schema declares: note ids (and, in the flat schema,
   * file paths) unique, tag and link primary keys unique; `index_note`
   * also keeps one full-text row per note.
   */
  predicate Wellformed(t: Tables, schema: Schema) {
    && Unique(t.notes, RowId())
    && (schema.Flat? ==> Unique(t.notes, RowPath()))
    && Unique(t.tags, TagKey())
    && Unique(t.links, LinkRowKey())
    && Unique(t.fts, FtsId())
  }

  lemma FirstDupNone<T>(s: seq<T>)
    ensures FirstDupFrom(s, 0).None? <==> Distinct(s)
  {
    if FirstDupFrom(s, 0).None? {
      forall i, j | 0 <= i < j < |s| ensures s[i] != s[j] {
        assert s[..j][i] == s[i];
      }
    } else {
      var k := FirstDupFrom(s, 0).value;
      var i :| 0 <= i < k && s[..k][i] == s[k];
    }
  }

  /**
   * `index_note` succeeds exactly when the note has a file path, no tag
   * twice and no two links with the same target and type; a missing path
   * fails before anything changes.
   */
  lemma UpsertOutcome(t: Tables, schema: Schema, note: Note, path: Option<string>)
    ensures Upsert(t, schema, note, path).1.None?
        <==> path.Some? && Distinct(note.tags) && Distinct(LinkKeys(note.links))
    ensures Upsert(t, schema, note, path).1 == Some(NullFilePath)
        <==> path.None?
    ensures path.None? ==> Upsert(t, schema, note, path).0 == t
  {
    FirstDupNone(note.tags);
    FirstDupNone(LinkKeys(note.links));
  }

  lemma {:induction false} FilterKeepsUnique<T(!new), K>(s: seq<T>, p: T -> bool, key: T -> K)
    requires Unique(s, key)
    ensures Unique(Filter(s, p), key)
  {
    if s != [] {
      FilterKeepsUnique(s[1..], p, key);
      var h := if p(s[0]) then [s[0]] else [];
      var rest := Filter(s[1..], p);
      forall i, j | 0 <= i < j < |h + rest| ensures key((h + rest)[i]) != key((h + rest)[j]) {
        if i < |h| {
          assert (h + rest)[j] in s[1..];
        }
      }
    }
  }

  lemma UniqueAppend<T, K>(a: seq<T>, b: seq<T>, key: T -> K)
    requires Unique(a, key) && Unique(b, key)
    requires forall i, j :: 0 <= i < |a| && 0 <= j < |b| ==> key(a[i]) != key(b[j])
    ensures Unique(a + b, key)
  {
    forall i, j | 0 <= i < j < |a + b| ensures key((a + b)[i]) != key((a + b)[j]) {
      if j < |a| {
      } else if i < |a| {
        assert key(a[i]) != key(b[j - |a|]);
      } else {
        assert key(b[i - |a|]) != key(b[j - |a|]);
      }
    }
  }

  /** The tag rows after the delete and the inserts of a repeat-free list of tags. */
  lemma TagsPartUnique(tags: seq<TagRow>, id: string, ts: seq<string>)
    requires Unique(tags, TagKey())
    requires forall j :: 0 <= j < |ts| ==> ts[j] !in ts[..j]
    ensures Unique(Filter(tags, NotTagOf(id)) + TagRows(id, ts), TagKey())
  {
    FilterKeepsUnique(tags, NotTagOf(id), TagKey());
    var a := Filter(tags, NotTagOf(id));
    var b := TagRows(id, ts);
    forall i, j | 0 <= i < j < |b| ensures TagKey()(b[i]) != TagKey()(b[j]) {
      assert ts[..j][i] == ts[i];
    }
    forall i, j | 0 <= i < |a| && 0 <= j < |b| ensures TagKey()(a[i]) != TagKey()(b[j]) {
      assert a[i] in a;
    }
    UniqueAppend(a, b, TagKey());
  }

  /** The link rows after the delete and the inserts of links with repeat-free keys. */
  lemma LinksPartUnique(links: seq<LinkRow>, id: string, ls: seq<RawLink>)
    requires Unique(links, LinkRowKey())
    requires forall j :: 0 <= j < |ls| ==> LinkKeys(ls)[j] !in LinkKeys(ls)[..j]
    ensures Unique(Filter(links, NotLinkFrom(id)) + LinkRows(id, ls), LinkRowKey())
  {
    FilterKeepsUnique(links, NotLinkFrom(id), LinkRowKey());
    var a := Filter(links, NotLinkFrom(id));
    var b := LinkRows(id, ls);
    forall i, j | 0 <= i < j < |b| ensures LinkRowKey()(b[i]) != LinkRowKey()(b[j]) {
      assert LinkKeys(ls)[..j][i] == LinkKeys(ls)[i];
    }
    forall i, j | 0 <= i < |a| && 0 <= j < |b| ensures LinkRowKey()(a[i]) != LinkRowKey()(b[j]) {
      assert a[i] in a;
    }
    UniqueAppend(a, b, LinkRowKey());
  }

  lemma NotesPartUnique(rows: seq<NoteRow>, schema: Schema, row: NoteRow)
    requires Unique(rows, RowId()) && (schema.Flat? ==> Unique(rows, RowPath()))
    ensures Unique(ReplaceRow(rows, schema, row), RowId())
    ensures schema.Flat? ==> Unique(ReplaceRow(rows, schema, row), RowPath())
  {
    var p := Survives(schema, row.id, row.filePath);
    var a := Filter(rows, p);
    FilterKeepsUnique(rows, p, RowId());
    forall i | 0 <= i < |a| ensures a[i].id != row.id && (schema.Flat? ==> a[i].filePath != row.filePath) {
      assert a[i] in a;
    }
    UniqueAppend(a, [row], RowId());
    if schema.Flat? {
      FilterKeepsUnique(rows, p, RowPath());
      UniqueAppend(a, [row], RowPath());
    }
  }

  lemma FtsPartUnique(fts: seq<FtsRow>, row: FtsRow)
    requires Unique(fts, FtsId())
    ensures Unique(Filter(fts, NotFtsOf(row.id)) + [row], FtsId())
  {
    var a := Filter(fts, NotFtsOf(row.id));
    FilterKeepsUnique(fts, NotFtsOf(row.id), FtsId());
    forall i | 0 <= i < |a| ensures a[i].id != row.id {
      assert a[i] in a;
    }
    UniqueAppend(a, [row], FtsId());
  }

  /** Every outcome of `index_note`, failed or not, keeps the declared constraints. */
  lemma UpsertKeepsWellformed(t: Tables, schema: Schema, note: Note, path: Option<string>)
    requires Wellformed(t, schema)
    ensures Wellformed(Upsert(t, schema, note, path).0, schema)
  {
    if path.Some? {
      NotesPartUnique(t.notes, schema, RowOf(note, path.value));
      match FirstDupFrom(note.tags, 0)
      case Some(k) =>
        PrefixRepeatFree(note.tags, k);
        TagsPartUnique(t.tags, note.id, note.tags[..k]);
        FilterKeepsUnique(t.links, NotLinkFrom(note.id), LinkRowKey());
      case None =>
        TagsPartUnique(t.tags, note.id, note.tags);
        match FirstDupFrom(LinkKeys(note.links), 0)
        case Some(k) =>
          PrefixRepeatFree(LinkKeys(note.links), k);
          assert LinkKeys(note.links)[..k] == LinkKeys(note.links[..k]);
          LinksPartUnique(t.links, note.id, note.links[..k]);
        case None =>
          LinksPartUnique(t.links, note.id, note.links);
          FtsPartUnique(t.fts, FtsRow(note.id, note.title, note.content, JoinTags(note.tags)));
    }
  }

  lemma PrefixRepeatFree<T>(s: seq<T>, k: nat)
    requires FirstDupFrom(s, 0).Some? && FirstDupFrom(s, 0).value == k
    ensures forall j :: 0 <= j < |s[..k]| ==> s[..k][j] !in s[..k][..j]
  {
    forall j | 0 <= j < k ensures s[..k][j] !in s[..k][..j] {
      assert s[..k][..j] == s[..j];
    }
  }

  /**
   * After a successful `index_note`, `get_note` returns the note as indexed:
   * its tags, in text order; its links with their defaults filled in, by
   * target and then type; and the path as the schema keeps it.
   */
  lemma FetchAfterIndex(t: Tables, schema: Schema, note: Note, path: string)
    requires Upsert(t, schema, note, Some(path)).1.None?
    ensures Fetch(Upsert(t, schema, note, Some(path)).0, schema, note.id) == Some(Stored(note, schema, path))
    ensures var n := Stored(note, schema, path);
      && multiset(n.tags) == multiset(note.tags) && Ascending(n.tags, TextLe())
      && multiset(n.links) == multiset(NormalizedLinks(note.links)) && Ascending(n.links, LinkKeyLe())
  {
    var t2 := Upsert(t, schema, note, Some(path)).0;
    RowAfterReplace(t.notes, schema, RowOf(note, path));
    TagsAfterInsert(t.tags, note.id, note.tags);
    LinksAfterInsert(t.links, note.id, note.links);
    TextLeTotal();
    LinkKeyLeTotal();
    SortByAscending(note.tags, TextLe());
    SortByAscending(NormalizedLinks(note.links), LinkKeyLe());
  }

  lemma RowAfterReplace(rows: seq<NoteRow>, schema: Schema, row: NoteRow)
    ensures Filter(ReplaceRow(rows, schema, row), HasId(row.id)) == [row]
  {
    var a := Filter(rows, Survives(schema, row.id, row.filePath));
    FilterAppend(a, [row], HasId(row.id));
    FilterNone(a, HasId(row.id));
    FilterAll([row], HasId(row.id));
  }

  lemma TagsAfterInsert(tags: seq<TagRow>, id: string, ts: seq<string>)
    ensures TagsOf(Filter(tags, NotTagOf(id)) + TagRows(id, ts), id) == ts
  {
    var a := Filter(tags, NotTagOf(id));
    var b := TagRows(id, ts);
    FilterAppend(a, b, TagOf(id));
    FilterNone(a, TagOf(id));
    FilterAll(b, TagOf(id));
    assert Filter(a + b, TagOf(id)) == b;
    var r := TagsOf(a + b, id);
    assert |r| == |ts|;
    forall i | 0 <= i < |ts| ensures r[i] == ts[i] {
      assert b[i] == TagRow(id, ts[i]);
    }
  }

  lemma LinksAfterInsert(links: seq<LinkRow>, id: string, ls: seq<RawLink>)
    ensures LinksOf(Filter(links, NotLinkFrom(id)) + LinkRows(id, ls), id) == NormalizedLinks(ls)
  {
    var a := Filter(links, NotLinkFrom(id));
    var b := LinkRows(id, ls);
    FilterAppend(a, b, LinkFrom(id));
    FilterNone(a, LinkFrom(id));
    FilterAll(b, LinkFrom(id));
    assert Filter(a + b, LinkFrom(id)) == b;
    var r := LinksOf(a + b, id);
    assert |r| == |ls|;
    forall i | 0 <= i < |ls| ensures r[i] == NormalizedLinks(ls)[i] {
      assert b[i] == StoredLink(id, ls[i]);
    }
  }

  lemma RowOther(rows: seq<NoteRow>, schema: Schema, row: NoteRow, o: string)
    requires o != row.id
    requires schema.Grouped? || forall x :: x in rows && x.id == o ==> x.filePath != row.filePath
    ensures Filter(ReplaceRow(rows, schema, row), HasId(o)) == Filter(rows, HasId(o))
  {
    var p := Survives(schema, row.id, row.filePath);
    FilterAppend(Filter(rows, p), [row], HasId(o));
    FilterFilter(rows, p, HasId(o));
    FilterNone([row], HasId(o));
  }

  lemma TagsOther(tags: seq<TagRow>, id: string, ts: seq<string>, o: string)
    requires o != id
    ensures Filter(Filter(tags, NotTagOf(id)) + TagRows(id, ts), TagOf(o)) == Filter(tags, TagOf(o))
  {
    FilterAppend(Filter(tags, NotTagOf(id)), TagRows(id, ts), TagOf(o));
    FilterFilter(tags, NotTagOf(id), TagOf(o));
    FilterNone(TagRows(id, ts), TagOf(o));
  }

  lemma LinksOther(links: seq<LinkRow>, id: string, ls: seq<RawLink>, o: string)
    requires o != id
    ensures Filter(Filter(links, NotLinkFrom(id)) + LinkRows(id, ls), LinkFrom(o)) == Filter(links, LinkFrom(o))
  {
    FilterAppend(Filter(links, NotLinkFrom(id)), LinkRows(id, ls), LinkFrom(o));
    FilterFilter(links, NotLinkFrom(id), LinkFrom(o));
    FilterNone(LinkRows(id, ls), LinkFrom(o));
  }

  /**
   * Indexing a note, whatever the outcome, leaves every other note as
   * `get_note` sees it, unless in the flat schema that note's row shared the
   * new row's file path.
   */
  lemma IndexLeavesOthers(t: Tables, schema: Schema, note: Note, path: Option<string>, o: string)
    requires o != note.id
    requires path.None? || schema.Grouped? || forall x :: x in t.notes && x.id == o ==> x.filePath != path.value
    ensures Fetch(Upsert(t, schema, note, path).0, schema, o) == Fetch(t, schema, o)
  {
    if path.Some? {
      RowOther(t.notes, schema, RowOf(note, path.value), o);
      LinksOther(t.links, note.id, [], o);
      assert Filter(t.links, NotLinkFrom(note.id)) + LinkRows(note.id, []) == Filter(t.links, NotLinkFrom(note.id));
      match FirstDupFrom(note.tags, 0)
      case Some(k) =>
        TagsOther(t.tags, note.id, note.tags[..k], o);
      case None =>
        TagsOther(t.tags, note.id, note.tags, o);
        match FirstDupFrom(LinkKeys(note.links), 0)
        case Some(k) =>
          LinksOther(t.links, note.id, note.links[..k], o);
        case None =>
          LinksOther(t.links, note.id, note.links, o);
    }
  }

  /**
   * In the flat schema `UNIQUE(file_path)` makes the replace evict the row
   * of another note stored at the same path: that note is gone from the index.
   */
  lemma FlatReplaceEvicts(t: Tables, note: Note, path: string, o: string)
    requires o != note.id
    requires forall x :: x in t.notes && x.id == o ==> x.filePath == path
    ensures Fetch(Upsert(t, Flat, note, Some(path)).0, Flat, o) == None
  {
    var p := Survives(Flat, note.id, path);
    var row := RowOf(note, path);
    FilterAppend(Filter(t.notes, p), [row], HasId(o));
    FilterNone(Filter(t.notes, p), HasId(o));
    FilterNone([row], HasId(o));
  }

  // ---------------------------------------------------------------------
  // The queries

  /** `get_file_path` of the grouped store. */
  function FilePathOf(t: Tables, id: string): Option<string> {
    var rows := Filter(t.notes, HasId(id));
    if rows == [] then None else Some(rows[0].filePath)
  }

  /** Once `index_note` has got past its first statement, the note's file is the path it was given. */
  lemma FilePathAfterIndex(t: Tables, schema: Schema, note: Note, path: string)
    ensures FilePathOf(Upsert(t, schema, note, Some(path)).0, note.id) == Some(path)
  {
    UpsertNotes(t, schema, note, path);
    RowAfterReplace(t.notes, schema, RowOf(note, path));
  }

  /** Whatever the tags and links do, the note row is replaced first. */
  lemma UpsertNotes(t: Tables, schema: Schema, note: Note, path: string)
    ensures Upsert(t, schema, note, Some(path)).0.notes == ReplaceRow(t.notes, schema, RowOf(note, path))
  {
  }

  /** Target and type of each link the note makes, in table order. */
  function LinkPairs(t: Tables, id: string): seq<(string, string)> {
    var rows := Filter(t.links, LinkFrom(id));
    seq(|rows|, i requires 0 <= i < |rows| => (rows[i].target, rows[i].linkType))
  }

  /** The source of each link to the note, in table order. */
  function LinkSources(t: Tables, id: string): seq<string> {
    var rows := Filter(t.links, LinkTo(id));
    seq(|rows|, i requires 0 <= i < |rows| => rows[i].source)
  }

  /**
   * `get_linked_notes`: its `WHERE source_id = ?` is answered through the
   * links key (source, target, type), so the rows come in target, then type order.
   */
  function LinkedNotes(t: Tables, id: string): seq<(string, string)> {
    SortBy(LinkPairs(t, id), PairKeyLe())
  }

  /**
   * `get_backlinks`: no index starts with the target, so the links key,
   * narrower than the table, is scanned whole, and the sources come in
   * text order.
   */
  function Backlinks(t: Tables, id: string): seq<string> {
    SortBy(LinkSources(t, id), TextLe())
  }

  /** Sorting keeps exactly the elements it was given. */
  lemma SortByMembers<T>(s: seq<T>, le: (T, T) -> bool, x: T)
    ensures x in SortBy(s, le) <==> x in s
  {
    assert x in SortBy(s, le) <==> x in multiset(SortBy(s, le));
    assert x in s <==> x in multiset(s);
  }

  /** `get_linked_notes` is the note's links in key order, and `get_backlinks` the sources in text order. */
  lemma LinkQueriesOrdered(t: Tables, id: string)
    ensures multiset(LinkedNotes(t, id)) == multiset(LinkPairs(t, id)) && Ascending(LinkedNotes(t, id), PairKeyLe())
    ensures multiset(Backlinks(t, id)) == multiset(LinkSources(t, id)) && Ascending(Backlinks(t, id), TextLe())
  {
    PairKeyLeTotal();
    TextLeTotal();
    SortByAscending(LinkPairs(t, id), PairKeyLe());
    SortByAscending(LinkSources(t, id), TextLe());
  }

  /** A note links to `x` exactly when it is among `x`'s backlinks. */
  lemma BacklinkSymmetry(t: Tables, s: string, x: string)
    ensures (exists ty :: (x, ty) in LinkedNotes(t, s)) <==> s in Backlinks(t, x)
  {
    forall ty ensures (x, ty) in LinkedNotes(t, s) <==> (x, ty) in LinkPairs(t, s) {
      SortByMembers(LinkPairs(t, s), PairKeyLe(), (x, ty));
    }
    SortByMembers(LinkSources(t, x), TextLe(), s);
    TableLinkSymmetry(t, s, x);
  }

  /** The same in table order: one link row is both a link of `s` to `x` and a link to `x` from `s`. */
  lemma TableLinkSymmetry(t: Tables, s: string, x: string)
    ensures (exists ty :: (x, ty) in LinkPairs(t, s)) <==> s in LinkSources(t, x)
  {
    var out := Filter(t.links, LinkFrom(s));
    var inc := Filter(t.links, LinkTo(x));
    if exists ty :: (x, ty) in LinkPairs(t, s) {
      var ty :| (x, ty) in LinkPairs(t, s);
      var i :| 0 <= i < |out| && LinkPairs(t, s)[i] == (x, ty);
      assert out[i] in out;
      assert out[i] in inc;
      var j :| 0 <= j < |inc| && inc[j] == out[i];
      assert LinkSources(t, x)[j] == s;
    }
    if s in LinkSources(t, x) {
      var j :| 0 <= j < |inc| && LinkSources(t, x)[j] == s;
      assert inc[j] in inc;
      assert inc[j] in out;
      var i :| 0 <= i < |out| && out[i] == inc[j];
      assert LinkPairs(t, s)[i] == (x, inc[j].linkType);
    }
  }

  /**
   * After a successful `index_note`, the note is among the backlinks of
   * every note it links to, and `get_linked_notes` lists each of its links
   * with the type it was stored with.
   */
  lemma BacklinksAfterIndex(t: Tables, schema: Schema, note: Note, path: string, k: nat)
    requires Upsert(t, schema, note, Some(path)).1.None?
    requires k < |note.links|
    ensures note.id in Backlinks(Upsert(t, schema, note, Some(path)).0, note.links[k].target)
    ensures (note.links[k].target, StoredLink(note.id, note.links[k]).linkType)
              in LinkedNotes(Upsert(t, schema, note, Some(path)).0, note.id)
  {
    var t2 := Upsert(t, schema, note, Some(path)).0;
    var x := note.links[k].target;
    var row := StoredLink(note.id, note.links[k]);
    assert row == LinkRows(note.id, note.links)[k];
    assert row in t2.links;
    var inc := Filter(t2.links, LinkTo(x));
    assert row in inc;
    var j :| 0 <= j < |inc| && inc[j] == row;
    assert LinkSources(t2, x)[j] == note.id;
    SortByMembers(LinkSources(t2, x), TextLe(), note.id);
    var out := Filter(t2.links, LinkFrom(note.id));
    assert row in out;
    var i :| 0 <= i < |out| && out[i] == row;
    assert LinkPairs(t2, note.id)[i] == (x, row.linkType);
    SortByMembers(LinkPairs(t2, note.id), PairKeyLe(), (x, row.linkType));
  }

  /** An id no link row points to has no backlinks. */
  lemma NoBacklinks(t: Tables, x: string)
    requires forall r :: r in t.links ==> r.target != x
    ensures Backlinks(t, x) == []
  {
    FilterNone(t.links, LinkTo(x));
    assert LinkSources(t, x) == [];
  }


  /** The note has a row in the notes table. */
  predicate Present(t: Tables, id: string) {
    Filter(t.notes, HasId(id)) != []
  }

  /** Every tag and link row belongs to a note that has a row: what the declared foreign keys promise. */
  predicate RefIntegrity(t: Tables) {
    && (forall r :: r in t.tags ==> Present(t, r.noteId))
    && (forall r :: r in t.links ==> Present(t, r.source))
  }

  /** `get_notes_by_tag`: `get_note` of each note id a tag row with that tag names. */
  function ByTag(t: Tables, schema: Schema, tag: string): seq<Option<Note>> {
    var rows := Filter(t.tags, HasTag(tag));
    seq(|rows|, i requires 0 <= i < |rows| => Fetch(t, schema, rows[i].noteId))
  }

  /** When every tag row belongs to a present note, each note `get_notes_by_tag` returns is found and carries the tag. */
  lemma ByTagAllPresent(t: Tables, schema: Schema, tag: string)
    requires RefIntegrity(t)
    ensures forall n :: n in ByTag(t, schema, tag) ==> n.Some? && tag in n.value.tags
  {
    var rows := Filter(t.tags, HasTag(tag));
    forall n | n in ByTag(t, schema, tag) ensures n.Some? && tag in n.value.tags {
      var i :| 0 <= i < |rows| && ByTag(t, schema, tag)[i] == n;
      assert rows[i] in rows;
      TagRowFetched(t, schema, rows[i]);
    }
  }

  /** Every note `get_note` finds with the tag is among what `get_notes_by_tag` returns. */
  lemma ByTagComplete(t: Tables, schema: Schema, tag: string, id: string)
    requires Fetch(t, schema, id).Some? && tag in Fetch(t, schema, id).value.tags
    ensures Fetch(t, schema, id) in ByTag(t, schema, tag)
  {
    FetchedTagRow(t, schema, id, tag);
    var rows := Filter(t.tags, HasTag(tag));
    assert TagRow(id, tag) in rows;
    var i :| 0 <= i < |rows| && rows[i] == TagRow(id, tag);
    assert ByTag(t, schema, tag)[i] == Fetch(t, schema, id);
  }

  /** A tag row of a present note shows among the tags `get_note` returns for it. */
  lemma TagRowFetched(t: Tables, schema: Schema, r: TagRow)
    requires r in t.tags && Present(t, r.noteId)
    ensures Fetch(t, schema, r.noteId).Some? && r.tag in Fetch(t, schema, r.noteId).value.tags
  {
    var own := Filter(t.tags, TagOf(r.noteId));
    assert r in own;
    var j :| 0 <= j < |own| && own[j] == r;
    var ts := TagsOf(t.tags, r.noteId);
    assert ts[j] == r.tag;
    assert r.tag in multiset(ts);
  }

  /** A tag `get_note` returns for a note comes from a tag row of that note. */
  lemma FetchedTagRow(t: Tables, schema: Schema, id: string, tag: string)
    requires Fetch(t, schema, id).Some? && tag in Fetch(t, schema, id).value.tags
    ensures TagRow(id, tag) in t.tags
  {
    var ts := TagsOf(t.tags, id);
    assert tag in multiset(SortBy(ts, TextLe()));
    assert tag in ts;
    var own := Filter(t.tags, TagOf(id));
    var j :| 0 <= j < |ts| && ts[j] == tag;
    assert own[j] in own;
    assert own[j] == TagRow(id, tag);
  }

  /** The source's `DELETE FROM notes WHERE id = ?`: foreign keys are never switched on, so nothing cascades. */
  function DeleteRowAsWritten(t: Tables, id: string): Tables {
    t.(notes := Filter(t.notes, NotId(id)))
  }

  /** Deleting a note with the cascade the schema declares; the full-text row has no foreign key and stays. */
  function RemoveNote(t: Tables, id: string): Tables {
    Tables(Filter(t.notes, NotId(id)), Filter(t.tags, NotTagOf(id)), Filter(t.links, NotLinkFrom(id)), t.fts)
  }

  /** A one-note index in which the only note has tag `x`. */
  function TaggedIndex(): Tables {
    Tables([NoteRow("a", "m", "A", "", "", "", "m/a.md", map[])], [TagRow("a", "x")], [], [])
  }

  /**
   * As written, deleting a tagged note leaves its tag row behind, so
   * `get_notes_by_tag` then returns `None` where a note was promised.
   */
  lemma OrphanedTagAsWritten()
    ensures RefIntegrity(TaggedIndex())
    ensures ByTag(DeleteRowAsWritten(TaggedIndex(), "a"), Flat, "x") == [None]
    ensures !RefIntegrity(DeleteRowAsWritten(TaggedIndex(), "a"))
  {
    var t := TaggedIndex();
    var row := t.notes[0];
    assert Filter(t.notes, HasId("a")) == [row];
    assert Filter(t.tags, HasTag("x")) == t.tags;
    var d := DeleteRowAsWritten(t, "a");
    assert d.notes == [];
    assert t.tags[0] in d.tags;
  }

  /** The corrected deletion removes the note and leaves every other note as `get_note` sees it. */
  lemma RemoveNoteFetch(t: Tables, schema: Schema, id: string, o: string)
    requires o != id
    ensures Fetch(RemoveNote(t, id), schema, id) == None
    ensures Fetch(RemoveNote(t, id), schema, o) == Fetch(t, schema, o)
  {
    var d := RemoveNote(t, id);
    FilterNone(d.notes, HasId(id));
    FilterFilter(t.notes, NotId(id), HasId(o));
    FilterFilter(t.tags, NotTagOf(id), TagOf(o));
    FilterFilter(t.links, NotLinkFrom(id), LinkFrom(o));
  }

  /**
   * The corrected deletion keeps the declared constraints and the integrity
   * of tag and link rows, so `get_notes_by_tag` never returns a missing note.
   */
  lemma RemoveNoteKeeps(t: Tables, schema: Schema, id: string)
    ensures Wellformed(t, schema) ==> Wellformed(RemoveNote(t, id), schema)
    ensures RefIntegrity(t) ==> RefIntegrity(RemoveNote(t, id))
  {
    var d := RemoveNote(t, id);
    if Wellformed(t, schema) {
      FilterKeepsUnique(t.notes, NotId(id), RowId());
      if schema.Flat? {
        FilterKeepsUnique(t.notes, NotId(id), RowPath());
      }
      FilterKeepsUnique(t.tags, NotTagOf(id), TagKey());
      FilterKeepsUnique(t.links, NotLinkFrom(id), LinkRowKey());
    }
    if RefIntegrity(t) {
      forall r | r in d.tags ensures Present(d, r.noteId) {
        KeptPresent(t, id, r.noteId);
      }
      forall r | r in d.links ensures Present(d, r.source) {
        KeptPresent(t, id, r.source);
      }
    }
  }

  lemma KeptPresent(t: Tables, id: string, o: string)
    requires o != id && Present(t, o)
    ensures Filter(Filter(t.notes, NotId(id)), HasId(o)) != []
  {
    FilterFilter(t.notes, NotId(id), HasId(o));
  }

  /**
   * In the grouped schema, and in the flat one when no other note shares
   * the path, every outcome of `index_note` keeps tag and link rows
   * attached to present notes.
   */
  lemma UpsertKeepsIntegrity(t: Tables, schema: Schema, note: Note, path: Option<string>)
    requires RefIntegrity(t)
    requires path.None? || schema.Grouped? || forall x :: x in t.notes && x.id != note.id ==> x.filePath != path.value
    ensures RefIntegrity(Upsert(t, schema, note, path).0)
  {
    if path.Some? {
      var t2 := Upsert(t, schema, note, path).0;
      forall r | r in t2.tags && r.noteId != note.id ensures r in Filter(t.tags, NotTagOf(note.id)) {
        UpsertTagsShape(t, schema, note, path.value, r);
      }
      forall r | r in t2.links && r.source != note.id ensures r in Filter(t.links, NotLinkFrom(note.id)) {
        UpsertLinksShape(t, schema, note, path.value, r);
      }
      IntegrityAfterReplace(t, t2, schema, RowOf(note, path.value));
    }
  }

  /** Tables whose notes are a replace of `row` and whose other tag and link rows were there before keep integrity. */
  lemma IntegrityAfterReplace(t: Tables, t2: Tables, schema: Schema, row: NoteRow)
    requires RefIntegrity(t)
    requires schema.Grouped? || forall x :: x in t.notes && x.id != row.id ==> x.filePath != row.filePath
    requires t2.notes == ReplaceRow(t.notes, schema, row)
    requires forall r :: r in t2.tags && r.noteId != row.id ==> r in Filter(t.tags, NotTagOf(row.id))
    requires forall r :: r in t2.links && r.source != row.id ==> r in Filter(t.links, NotLinkFrom(row.id))
    ensures RefIntegrity(t2)
  {
    RowAfterReplace(t.notes, schema, row);
    forall r | r in t2.tags ensures Present(t2, r.noteId) {
      if r.noteId != row.id {
        RowOther(t.notes, schema, row, r.noteId);
      }
    }
    forall r | r in t2.links ensures Present(t2, r.source) {
      if r.source != row.id {
        RowOther(t.notes, schema, row, r.source);
      }
    }
  }

  /** A tag row of another note after `index_note` was there before. */
  lemma UpsertTagsShape(t: Tables, schema: Schema, note: Note, path: string, r: TagRow)
    requires r in Upsert(t, schema, note, Some(path)).0.tags && r.noteId != note.id
    ensures r in Filter(t.tags, NotTagOf(note.id))
  {
    match FirstDupFrom(note.tags, 0)
    case Some(k) =>
      assert r !in TagRows(note.id, note.tags[..k]);
    case None =>
      assert r !in TagRows(note.id, note.tags);
  }

  /** A link row of another note after `index_note` was there before. */
  lemma UpsertLinksShape(t: Tables, schema: Schema, note: Note, path: string, r: LinkRow)
    requires r in Upsert(t, schema, note, Some(path)).0.links && r.source != note.id
    ensures r in Filter(t.links, NotLinkFrom(note.id))
  {
    match FirstDupFrom(note.tags, 0)
    case Some(k) =>
    case None =>
      match FirstDupFrom(LinkKeys(note.links), 0)
      case Some(k) =>
        assert r !in LinkRows(note.id, note.links[..k]);
      case None =>
        assert r !in LinkRows(note.id, note.links);
  }

  /** Under unique ids, the row `get_note` reads for a note is that note's only row. */
  lemma {:induction false} OnlyRow(rows: seq<NoteRow>, r: NoteRow)
    requires Unique(rows, RowId()) && r in rows
    ensures Filter(rows, HasId(r.id)) == [r]
  {
    var rest := rows[1..];
    assert Unique(rest, RowId());
    if rows[0] == r {
      forall x | x in rest ensures !HasId(r.id)(x) {
        var k :| 0 <= k < |rest| && rest[k] == x;
        assert RowId()(rows[0]) != RowId()(rows[k + 1]);
      }
      FilterNone(rest, HasId(r.id));
    } else {
      var k :| 0 <= k < |rows| && rows[k] == r;
      assert RowId()(rows[0]) != RowId()(rows[k]);
      assert r in rest;
      OnlyRow(rest, r);
    }
  }

  // Full-text search

  /** `if module:` — an absent or empty module name filters nothing. */
  predicate ModuleFilter(scope: Option<string>, r: NoteRow) {
    scope.None? || scope.value == "" || r.moduleName == scope.value
  }

  function JoinedTo(id: string, scope: Option<string>): NoteRow -> bool {
    (r: NoteRow) => r.id == id && ModuleFilter(scope, r)
  }

  /**
   * The ids the search's join yields: each full-text row the query matches,
   * paired with the note rows of its id that pass the scope filter.
   * `matches` stands for `fts MATCH query`.
   */
  function SearchIds(fts: seq<FtsRow>, notes: seq<NoteRow>, matches: FtsRow -> bool, scope: Option<string>): seq<string> {
    if fts == [] then []
    else HitIds(fts[0], notes, matches, scope) + SearchIds(fts[1..], notes, matches, scope)
  }

  /** The ids one full-text row contributes to the join. */
  function HitIds(f: FtsRow, notes: seq<NoteRow>, matches: FtsRow -> bool, scope: Option<string>): seq<string> {
    var hits := if matches(f) then Filter(notes, JoinedTo(f.id, scope)) else [];
    seq(|hits|, i requires 0 <= i < |hits| => hits[i].id)
  }

  lemma HitMembers(f: FtsRow, notes: seq<NoteRow>, matches: FtsRow -> bool, scope: Option<string>, id: string)
    ensures id in HitIds(f, notes, matches, scope)
        <==> f.id == id && matches(f) && exists r :: r in notes && r.id == id && ModuleFilter(scope, r)
  {
    var hits := if matches(f) then Filter(notes, JoinedTo(f.id, scope)) else [];
    var ids := HitIds(f, notes, matches, scope);
    if id in ids {
      var i :| 0 <= i < |hits| && ids[i] == id;
      assert hits[i] in hits;
    }
    if f.id == id && matches(f) && exists r :: r in notes && r.id == id && ModuleFilter(scope, r) {
      var r :| r in notes && r.id == id && ModuleFilter(scope, r);
      assert r in hits;
      var i :| 0 <= i < |hits| && hits[i] == r;
      assert ids[i] == id;
    }
  }

  /** `search`: `get_note` of each id the join yields. */
  function Search(t: Tables, schema: Schema, matches: FtsRow -> bool, scope: Option<string>): seq<Option<Note>> {
    var ids := SearchIds(t.fts, t.notes, matches, scope);
    seq(|ids|, i requires 0 <= i < |ids| => Fetch(t, schema, ids[i]))
  }

  /** An id is found exactly when one of its full-text rows matches and it has a note row passing the scope filter. */
  lemma {:induction false} SearchMembers(fts: seq<FtsRow>, notes: seq<NoteRow>, matches: FtsRow -> bool, scope: Option<string>, id: string)
    ensures id in SearchIds(fts, notes, matches, scope)
        <==> (exists f :: f in fts && f.id == id && matches(f)) && (exists r :: r in notes && r.id == id && ModuleFilter(scope, r))
  {
    if fts != [] {
      SearchMembers(fts[1..], notes, matches, scope, id);
      HitMembers(fts[0], notes, matches, scope, id);
      assert forall f :: f in fts <==> f == fts[0] || f in fts[1..];
    }
  }

  /** Every note `search` returns is found: the join only yields ids with a note row. */
  lemma SearchFindsNotes(t: Tables, schema: Schema, matches: FtsRow -> bool, scope: Option<string>)
    ensures forall n :: n in Search(t, schema, matches, scope) ==> n.Some?
  {
    var ids := SearchIds(t.fts, t.notes, matches, scope);
    forall n | n in Search(t, schema, matches, scope) ensures n.Some? {
      var i :| 0 <= i < |ids| && Search(t, schema, matches, scope)[i] == n;
      SearchMembers(t.fts, t.notes, matches, scope, ids[i]);
      var r :| r in t.notes && r.id == ids[i] && ModuleFilter(scope, r);
      assert r in Filter(t.notes, HasId(ids[i]));
    }
  }

  /** After a successful `index_note`, an unfiltered search finds the note exactly when the query matches its new full-text row. */
  lemma SearchAfterIndex(t: Tables, schema: Schema, note: Note, path: string, matches: FtsRow -> bool)
    requires Upsert(t, schema, note, Some(path)).1.None?
    ensures var t2 := Upsert(t, schema, note, Some(path)).0;
      note.id in SearchIds(t2.fts, t2.notes, matches, None)
      <==> matches(FtsRow(note.id, note.title, note.content, JoinTags(note.tags)))
  {
    var t2 := Upsert(t, schema, note, Some(path)).0;
    var row := FtsRow(note.id, note.title, note.content, JoinTags(note.tags));
    var kept := Filter(t.fts, NotFtsOf(note.id));
    assert t2.fts == kept + [row];
    assert RowOf(note, path) in t2.notes;
    SearchMembers(t2.fts, t2.notes, matches, None, note.id);
    forall f | f in t2.fts && f.id == note.id ensures f == row {
      if f in kept {
      }
    }
  }

  // Notes of a scope

  function InModule(m: string): NoteRow -> bool { (r: NoteRow) => r.moduleName == m }

  /** SQLite's comparison of two texts: code point by code point, a proper prefix first. */
  predicate StrLe(a: string, b: string) {
    |a| == 0 || (|b| > 0 && (a[0] < b[0] || (a[0] == b[0] && StrLe(a[1..], b[1..]))))
  }

  lemma {:induction false} StrLeTotal(a: string, b: string)
    ensures StrLe(a, b) || StrLe(b, a)
  {
    if |a| > 0 && |b| > 0 && a[0] == b[0] {
      StrLeTotal(a[1..], b[1..]);
    }
  }

  lemma {:induction false} StrLeTrans(a: string, b: string, c: string)
    requires StrLe(a, b) && StrLe(b, c)
    ensures StrLe(a, c)
  {
    if |a| > 0 && a[0] == b[0] && b[0] == c[0] {
      StrLeTrans(a[1..], b[1..], c[1..]);
    }
  }

  /** Latest modification first: `ORDER BY modified DESC`. */
  function NewerLe(): (NoteRow, NoteRow) -> bool {
    (a: NoteRow, b: NoteRow) => StrLe(b.modified, a.modified)
  }

  predicate NewestFirst(s: seq<NoteRow>) {
    forall i, j :: 0 <= i < j < |s| ==> StrLe(s[j].modified, s[i].modified)
  }

  lemma NewerLeTotal()
    ensures TotalOrder(NewerLe())
  {
    forall a: NoteRow, b: NoteRow ensures StrLe(b.modified, a.modified) || StrLe(a.modified, b.modified) {
      StrLeTotal(a.modified, b.modified);
    }
    forall a: NoteRow, b: NoteRow, c: NoteRow | StrLe(b.modified, a.modified) && StrLe(c.modified, b.modified)
      ensures StrLe(c.modified, a.modified)
    {
      StrLeTrans(c.modified, b.modified, a.modified);
    }
  }

  /** Sorting by modification time puts the latest first. */
  lemma SortIsNewestFirst(s: seq<NoteRow>)
    ensures NewestFirst(SortBy(s, NewerLe()))
  {
    NewerLeTotal();
    SortByAscending(s, NewerLe());
  }

  /** The scope's rows in the order the query returns them: rowid order in the flat store, latest modification first in the grouped one. */
  function ModuleRows(t: Tables, schema: Schema, m: string): seq<NoteRow> {
    if schema.Flat? then Filter(t.notes, InModule(m)) else SortBy(Filter(t.notes, InModule(m)), NewerLe())
  }

  /** `get_notes_by_module`. */
  function ByModule(t: Tables, schema: Schema, m: string): seq<Option<Note>> {
    var rows := ModuleRows(t, schema, m);
    seq(|rows|, i requires 0 <= i < |rows| => Fetch(t, schema, rows[i].id))
  }

  /**
   * `get_notes_by_module` returns each note row of the scope once, the
   * grouped store's newest first, and every note it returns is found and
   * (with unique ids) belongs to the scope.
   */
  lemma ByModuleContents(t: Tables, schema: Schema, m: string)
    ensures multiset(ModuleRows(t, schema, m)) == multiset(Filter(t.notes, InModule(m)))
    ensures schema.Grouped? ==> NewestFirst(ModuleRows(t, schema, m))
    ensures forall n :: n in ByModule(t, schema, m) ==> n.Some?
    ensures Unique(t.notes, RowId()) ==> forall n :: n in ByModule(t, schema, m) ==> n.value.moduleName == m
  {
    if schema.Grouped? {
      SortIsNewestFirst(Filter(t.notes, InModule(m)));
    }
    var rows := ModuleRows(t, schema, m);
    forall n | n in ByModule(t, schema, m)
      ensures n.Some?
      ensures Unique(t.notes, RowId()) ==> n.value.moduleName == m
    {
      var i :| 0 <= i < |rows| && ByModule(t, schema, m)[i] == n;
      assert rows[i] in multiset(rows);
      assert rows[i] in Filter(t.notes, InModule(m));
      assert rows[i] in Filter(t.notes, HasId(rows[i].id));
      if Unique(t.notes, RowId()) {
        OnlyRow(t.notes, rows[i]);
      }
    }
  }
}
