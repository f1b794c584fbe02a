/**
 * The one-note-per-file store: every note is a markdown file at
 * `<root>/<module>/<id>.md`, mirrored into the index. The notes directory
 * is a map from path to text; the clock is the `now` parameter.
 */
module FlatStore {
  import opened Wrappers
  import opened Text
  import opened Notes
  import opened Paths
  import opened MarkdownCodec
  import opened Index

  /** Why `update_note` raises: the note has no file path to open (none, or the empty path), or indexing it failed. */
  datatype UpdateError = NoFilePath | NotIndexed(cause: IndexError)

  /** The note `create_note` writes and indexes: placed by id, `created` filled in when empty, `modified` set to now. */
  function Prepared(note: Note, root: string, now: string): Note {
    note.(filePath := Some(FlatPath(root, note.moduleName, note.id)),
          created := if note.created == "" then now else note.created,
          modified := now)
  }

  /** The directory after `delete_note`: the file the index names for the note is unlinked, if any. */
  function Unlinked(files: map<string, string>, fetched: Option<Note>): map<string, string> {
    if fetched.Some? && fetched.value.filePath.Some? && fetched.value.filePath.value != ""
    then files - {fetched.value.filePath.value}
    else files
  }

  /** One file of `rebuild_index`: the tables afterwards, and whether it counted. Read and parse errors are caught. */
  function FlatRebuildStep(t: Tables, files: map<string, string>, p: string, codec: YamlCodec, now: string): (Tables, bool) {
    if !Indexable(p) || p !in files then (t, false)
    else
      match Parse(p, files[p], codec, now)
      case Failure(_) => (t, false)
      case Success(n) =>
        var (t2, e) := Upsert(t, Flat, n, n.filePath);
        (t2, e.None?)
  }

  /** `rebuild_index` over the files in the order `rglob` yields them: the tables afterwards and the count. */
  function FlatRebuild(t: Tables, files: map<string, string>, ps: seq<string>, codec: YamlCodec, now: string): (Tables, nat)
    decreases |ps|
  {
    if ps == [] then (t, 0)
    else
      var (t1, c) := FlatRebuild(t, files, ps[..|ps| - 1], codec, now);
      var (t2, ok) := FlatRebuildStep(t1, files, ps[|ps| - 1], codec, now);
      (t2, if ok then c + 1 else c)
  }

  /** `NoteManager`: the notes directory and its index. */
  class NoteManager {
    const root: string
    const codec: YamlCodec
    var files: map<string, string>
    const db: NoteDatabase

    /** The index uses the flat schema. */
    predicate Valid()
      reads this
    {
      db.schema == Flat
    }

    /** Opening a notes directory with a fresh index. */
    constructor (root: string, codec: YamlCodec, files: map<string, string>)
      ensures Valid()
      ensures this.root == root && this.codec == codec && this.files == files
      ensures fresh(db) && db.tables == Empty
    {
      this.root := root;
      this.codec := codec;
      this.files := files;
      db := new NoteDatabase(Flat);
    }

    /** `create_note`: write the prepared note to its file, then index it. */
    method CreateNote(note: Note, now: string) returns (id: string, stored: Note, err: Option<IndexError>)
      requires Valid()
      modifies this, db
      ensures id == note.id && stored == Prepared(note, root, now)
      ensures files == old(files)[FlatPath(root, note.moduleName, note.id) := Serialize(stored, codec)]
      ensures (db.tables, err) == Upsert(old(db.tables), Flat, stored, stored.filePath)
    {
      var path := FlatPath(root, note.moduleName, note.id);
      stored := note.(filePath := Some(path));
      if stored.created == "" {
        stored := stored.(created := now);
      }
      stored := stored.(modified := now);
      files := files[path := Serialize(stored, codec)];
      err := db.IndexNote(stored, stored.filePath);
      id := note.id;
    }

    /** `update_note`: stamp `modified`, rewrite the note's own file, re-index it. */
    method UpdateNote(note: Note, now: string) returns (stored: Note, err: Option<UpdateError>)
      requires Valid()
      modifies this, db
      ensures stored == note.(modified := now)
      ensures note.filePath in {None, Some("")} ==> err == Some(NoFilePath) && files == old(files) && db.tables == old(db.tables)
      ensures note.filePath !in {None, Some("")} ==> files == old(files)[note.filePath.value := Serialize(stored, codec)]
      ensures note.filePath !in {None, Some("")} ==>
        var (t, e) := Upsert(old(db.tables), Flat, stored, stored.filePath);
        db.tables == t && err == (if e.Some? then Some(NotIndexed(e.value)) else None)
    {
      stored := note.(modified := now);
      if stored.filePath.None? || stored.filePath.value == "" {
        return stored, Some(NoFilePath);
      }
      files := files[stored.filePath.value := Serialize(stored, codec)];
      var e := db.IndexNote(stored, stored.filePath);
      err := if e.Some? then Some(NotIndexed(e.value)) else None;
    }

    /** `delete_note`: unlink the file the index names, then delete the note from the index (with the cascade). */
    method DeleteNote(id: string)
      requires Valid()
      modifies this, db
      ensures files == Unlinked(old(files), Fetch(old(db.tables), Flat, id))
      ensures db.tables == RemoveNote(old(db.tables), id)
    {
      var note := Fetch(db.tables, Flat, id);
      if note.Some? && note.value.filePath.Some? && note.value.filePath.value != "" {
        files := files - {note.value.filePath.value};
      }
      db.DeleteNote(id);
    }

    /** `rebuild_index`: index every markdown file outside the index directory; count the notes indexed. */
    method RebuildIndex(listing: seq<string>, now: string) returns (count: nat)
      requires Valid()
      modifies db
      ensures (db.tables, count) == FlatRebuild(old(db.tables), files, listing, codec, now)
    {
      count := 0;
      ghost var t0 := db.tables;
      for i := 0 to |listing|
        invariant db.tables == FlatRebuild(t0, files, listing[..i], codec, now).0
        invariant count == FlatRebuild(t0, files, listing[..i], codec, now).1
      {
        RebuildUnfold(t0, files, listing, i, codec, now);
        var ok := IndexFile(listing[i], now);
        if ok {
          count := count + 1;
        }
      }
      assert listing[..|listing|] == listing;
    }

    /** The body of the `rebuild_index` loop for one file: errors are caught and the file is not counted. */
    method IndexFile(p: string, now: string) returns (ok: bool)
      requires Valid()
      modifies db
      ensures (db.tables, ok) == FlatRebuildStep(old(db.tables), files, p, codec, now)
    {
      if !Indexable(p) || p !in files {
        return false;
      }
      var r := Parse(p, files[p], codec, now);
      if r.Failure? {
        return false;
      }
      var e := db.IndexNote(r.value, r.value.filePath);
      ok := e.None?;
    }
  }

  lemma RebuildUnfold(t: Tables, files: map<string, string>, ps: seq<string>, i: nat, codec: YamlCodec, now: string)
    requires i < |ps|
    ensures var (t1, c) := FlatRebuild(t, files, ps[..i], codec, now);
      var (t2, ok) := FlatRebuildStep(t1, files, ps[i], codec, now);
      FlatRebuild(t, files, ps[..i + 1], codec, now) == (t2, if ok then c + 1 else c)
  {
    assert ps[..i + 1][..i] == ps[..i];
  }

  /** A file `rebuild_index` counts: indexable, present, parsed, and free of repeated tag and link keys. */
  predicate Counted(files: map<string, string>, p: string, codec: YamlCodec, now: string) {
    && Indexable(p) && p in files
    && Parse(p, files[p], codec, now).Success?
    && Distinct(Parse(p, files[p], codec, now).value.tags)
    && Distinct(LinkKeys(Parse(p, files[p], codec, now).value.links))
  }

  function CountedIn(files: map<string, string>, codec: YamlCodec, now: string): string -> bool {
    p => Counted(files, p, codec, now)
  }

  lemma StepCounts(t: Tables, files: map<string, string>, p: string, codec: YamlCodec, now: string)
    ensures FlatRebuildStep(t, files, p, codec, now).1 == Counted(files, p, codec, now)
  {
    if Indexable(p) && p in files && Parse(p, files[p], codec, now).Success? {
      var n := Parse(p, files[p], codec, now).value;
      UpsertOutcome(t, Flat, n, n.filePath);
    }
  }

  /**
   * The count `rebuild_index` reports is exactly the number of listed files
   * it could read, parse and index: whether a file counts does not depend
   * on what was indexed before it.
   */
  lemma {:induction false} RebuildCount(t: Tables, files: map<string, string>, ps: seq<string>, codec: YamlCodec, now: string)
    ensures FlatRebuild(t, files, ps, codec, now).1 == |Filter(ps, CountedIn(files, codec, now))|
    decreases |ps|
  {
    if ps != [] {
      var init := ps[..|ps| - 1];
      var last := ps[|ps| - 1];
      RebuildCount(t, files, init, codec, now);
      StepCounts(FlatRebuild(t, files, init, codec, now).0, files, last, codec, now);
      assert ps == init + [last];
      FilterAppend(init, [last], CountedIn(files, codec, now));
    }
  }

  /** Every outcome of `rebuild_index` keeps the index's declared constraints. */
  lemma {:induction false} RebuildKeepsWellformed(t: Tables, files: map<string, string>, ps: seq<string>, codec: YamlCodec, now: string)
    requires Wellformed(t, Flat)
    ensures Wellformed(FlatRebuild(t, files, ps, codec, now).0, Flat)
    decreases |ps|
  {
    if ps != [] {
      var init := ps[..|ps| - 1];
      var p := ps[|ps| - 1];
      RebuildKeepsWellformed(t, files, init, codec, now);
      var t1 := FlatRebuild(t, files, init, codec, now).0;
      if Indexable(p) && p in files && Parse(p, files[p], codec, now).Success? {
        var n := Parse(p, files[p], codec, now).value;
        UpsertKeepsWellformed(t1, Flat, n, n.filePath);
      }
    }
  }

  /** A file `create_note` writes parses back to the note it stored, with its body stripped. */
  lemma CreatedFileReadsBack(note: Note, root: string, now: string, codec: YamlCodec, parseNow: string)
    requires Lawful(codec)
    ensures var stored := Prepared(note, root, now);
      var path := FlatPath(root, note.moduleName, note.id);
      Parse(path, Serialize(stored, codec), codec, parseNow) == Success(stored.(content := Strip(stored.content)))
  {
    var stored := Prepared(note, root, now);
    var path := FlatPath(root, note.moduleName, note.id);
    ParseSerialize(stored, codec, path, parseNow);
  }

  /**
   * After a successful `create_note`, `get_note` returns the stored note:
   * the creation time kept or filled in, `modified` now, the path placed by id.
   */
  lemma CreatedIsIndexed(t: Tables, note: Note, root: string, now: string)
    requires Upsert(t, Flat, Prepared(note, root, now), Some(FlatPath(root, note.moduleName, note.id))).1.None?
    ensures var stored := Prepared(note, root, now);
      Fetch(Upsert(t, Flat, stored, stored.filePath).0, Flat, note.id)
        == Some(Stored(stored, Flat, FlatPath(root, note.moduleName, note.id)))
    ensures note.created != "" ==> Prepared(note, root, now).created == note.created
    ensures Prepared(note, root, now).modified == now
  {
    var stored := Prepared(note, root, now);
    FetchAfterIndex(t, Flat, stored, FlatPath(root, note.moduleName, note.id));
  }

  /**
   * `delete_note` unlinks exactly the file the index names for the note
   * (when it names a non-empty path) and leaves every other file as it was.
   */
  lemma DeleteRemovesFile(files: map<string, string>, t: Tables, id: string)
    ensures forall q :: q in Unlinked(files, Fetch(t, Flat, id)) ==> q in files && Unlinked(files, Fetch(t, Flat, id))[q] == files[q]
    ensures forall q :: q in files && Some(q) != FilePathOf(t, id) ==> q in Unlinked(files, Fetch(t, Flat, id))
    ensures FilePathOf(t, id).Some? && FilePathOf(t, id).value != "" ==> FilePathOf(t, id).value !in Unlinked(files, Fetch(t, Flat, id))
  {
  }
}
