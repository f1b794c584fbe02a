/**
 * The grouped store: the notes of one module and one month share the file
 * `<root>/<module>/<YYYY-MM>.md`, mirrored into the index. The notes
 * directory is a map from path to text; the clock (`now`) and the header's
 * generation time (`ts`) are parameters.
 */
module GroupedStore {
  import opened Wrappers
  import opened Notes
  import opened Paths
  import opened GroupedCodec
  import opened Index

  /**
   * Why an operation of the manager raises: the creation time does not
   * parse, the file the index names is missing, the file holds a section
   * whose metadata is not a mapping, or indexing failed.
   */
  datatype StoreError = BadTimestamp | MissingFile(path: string) | BadFile(parseError: GroupError) | NotIndexed(cause: IndexError)

  function Lift(e: Option<IndexError>): Option<StoreError> {
    if e.Some? then Some(NotIndexed(e.value)) else None
  }

  /** Where the first note with the id sits in the list, if any. */
  function FirstWithId(ns: seq<Note>, id: string): (r: Option<nat>)
    ensures r.Some? ==> r.value < |ns| && ns[r.value].id == id && forall j :: 0 <= j < r.value ==> ns[j].id != id
    ensures r.None? ==> forall j :: 0 <= j < |ns| ==> ns[j].id != id
    decreases |ns|
  {
    if ns == [] then None
    else if ns[0].id == id then Some(0)
    else
      match FirstWithId(ns[1..], id)
      case None => None
      case Some(k) => Some(k + 1)
  }

  /** The list `update_note_in_file` writes back: the first note with the id replaced, or the note appended. */
  function ReplaceOrAppend(ns: seq<Note>, n: Note): seq<Note> {
    match FirstWithId(ns, n.id)
    case Some(i) => ns[i := n]
    case None => ns + [n]
  }

  /** The loop of `update_note_in_file`: find the first note with the id, replace it and stop; append if none. */
  method UpdateInList(ns: seq<Note>, n: Note) returns (r: seq<Note>)
    ensures r == ReplaceOrAppend(ns, n)
  {
    r := ns;
    var found := false;
    var i := 0;
    while i < |r| && !found
      invariant 0 <= i <= |r| == |ns|
      invariant !found ==> r == ns && forall j :: 0 <= j < i ==> ns[j].id != n.id
      invariant found ==> 0 < i && r == ns[i - 1 := n] && ns[i - 1].id == n.id && forall j :: 0 <= j < i - 1 ==> ns[j].id != n.id
    {
      if r[i].id == n.id {
        r := r[i := n];
        found := true;
      }
      i := i + 1;
    }
    if !found {
      r := r + [n];
    }
  }

  function OtherThan(id: string): Note -> bool {
    (m: Note) => m.id != id
  }

  /** The list `delete_note_from_file` writes back: every note with the id dropped. */
  function WithoutId(ns: seq<Note>, id: string): seq<Note> {
    Filter(ns, OtherThan(id))
  }

  /** No two notes of the list share an id. */
  predicate IdsUnique(ns: seq<Note>) {
    forall i, j :: 0 <= i < j < |ns| ==> ns[i].id != ns[j].id
  }

  /**
   * After `update_note_in_file`'s loop the note is in the list, at the
   * place of the first note with its id or at the end, and the list grew
   * by one exactly when no note had that id.
   */
  lemma ReplaceOrAppendPlaces(ns: seq<Note>, n: Note)
    ensures var r := ReplaceOrAppend(ns, n);
      && FirstWithId(r, n.id).Some? && r[FirstWithId(r, n.id).value] == n
      && |r| == (if FirstWithId(ns, n.id).Some? then |ns| else |ns| + 1)
      && (FirstWithId(ns, n.id).Some? ==> FirstWithId(r, n.id) == FirstWithId(ns, n.id))
      && (forall j :: 0 <= j < |ns| && ns[j].id != n.id ==> r[j] == ns[j])
  {
    var r := ReplaceOrAppend(ns, n);
    match FirstWithId(ns, n.id)
    case Some(i) =>
      FirstIsFirst(r, n.id, i);
    case None =>
      FirstIsFirst(r, n.id, |ns|);
  }

  lemma {:induction false} FirstIsFirst(ns: seq<Note>, id: string, i: nat)
    requires i < |ns| && ns[i].id == id && forall j :: 0 <= j < i ==> ns[j].id != id
    ensures FirstWithId(ns, id) == Some(i)
    decreases i
  {
    if i > 0 {
      FirstIsFirst(ns[1..], id, i - 1);
    }
  }

  /** Updating a note in a list whose ids are unique keeps them unique. */
  lemma ReplaceOrAppendUnique(ns: seq<Note>, n: Note)
    requires IdsUnique(ns)
    ensures IdsUnique(ReplaceOrAppend(ns, n))
  {
  }

  /** Writing the same note twice leaves the list as writing it once. */
  lemma ReplaceOrAppendIdempotent(ns: seq<Note>, n: Note)
    ensures ReplaceOrAppend(ReplaceOrAppend(ns, n), n) == ReplaceOrAppend(ns, n)
  {
    var r := ReplaceOrAppend(ns, n);
    ReplaceOrAppendPlaces(ns, n);
    var k := FirstWithId(r, n.id).value;
    assert r[k := n] == r;
  }

  lemma {:induction false} FilterUpdate(ns: seq<Note>, i: nat, x: Note, p: Note -> bool)
    requires i < |ns| && !p(ns[i]) && !p(x)
    ensures Filter(ns[i := x], p) == Filter(ns, p)
    decreases |ns|
  {
    if i > 0 {
      assert ns[i := x][1..] == ns[1..][i - 1 := x];
      FilterUpdate(ns[1..], i - 1, x, p);
    } else {
      assert ns[i := x][1..] == ns[1..];
    }
  }

  /**
   * Deleting a note from its file after updating it there gives the same
   * list as deleting it from the file as it was: an update touches no
   * other note.
   */
  lemma DeleteAfterUpdate(ns: seq<Note>, n: Note)
    ensures WithoutId(ReplaceOrAppend(ns, n), n.id) == WithoutId(ns, n.id)
  {
    match FirstWithId(ns, n.id)
    case Some(i) =>
      FilterUpdate(ns, i, n, OtherThan(n.id));
    case None =>
      FilterAppend(ns, [n], OtherThan(n.id));
      assert Filter([n], OtherThan(n.id)) == [] by {
        assert [n][1..] == [];
      }
      assert Filter(ns, OtherThan(n.id)) + [] == Filter(ns, OtherThan(n.id));
  }

  /** `delete_note_from_file` leaves no note with the id and keeps every other note. */
  lemma WithoutIdContents(ns: seq<Note>, id: string)
    ensures forall m :: m in WithoutId(ns, id) <==> m in ns && m.id != id
    ensures |WithoutId(ns, id)| <= |ns|
    ensures FirstWithId(ns, id).None? ==> WithoutId(ns, id) == ns
  {
    if FirstWithId(ns, id).None? {
      FilterAll(ns, OtherThan(id));
    }
  }

  /** The note `create_note` writes: `created` filled in when empty, `modified` set to now. */
  function Stamped(note: Note, now: string): Note {
    note.(created := if note.created == "" then now else note.created, modified := now)
  }

  /** The notes `create_note` finds in the target file: parsed when it exists, none otherwise. */
  function Existing(files: map<string, string>, p: string, codec: YamlCodec, now: string): Result<seq<Note>, GroupError> {
    if p in files then NotesOf(Sections(files[p], 0), codec, now) else Success([])
  }

  /**
   * The inner loop of `rebuild_index` over one file's notes: each is
   * indexed and counted until one raises, which abandons the rest of the
   * file (the notes before it stay indexed and counted).
   */
  function IndexAll(t: Tables, ns: seq<Note>, p: string): (Tables, nat)
    decreases |ns|
  {
    if ns == [] then (t, 0)
    else
      var (t1, e) := Upsert(t, Grouped, ns[0], Some(p));
      if e.Some? then (t1, 0)
      else
        var (t2, c) := IndexAll(t1, ns[1..], p);
        (t2, c + 1)
  }

  /** One file of `rebuild_index`: the tables afterwards and the notes counted. Parse errors are caught. */
  function GroupedRebuildStep(t: Tables, files: map<string, string>, p: string, codec: YamlCodec, now: string): (Tables, nat) {
    if !Indexable(p) || p !in files then (t, 0)
    else
      match NotesOf(Sections(files[p], 0), codec, now)
      case Failure(_) => (t, 0)
      case Success(ns) => IndexAll(t, ns, p)
  }

  /** `rebuild_index` over the files in the order `rglob` yields them: the tables afterwards and the count. */
  function GroupedRebuild(t: Tables, files: map<string, string>, ps: seq<string>, codec: YamlCodec, now: string): (Tables, nat)
    decreases |ps|
  {
    if ps == [] then (t, 0)
    else
      var step := GroupedRebuildStep(t, files, ps[0], codec, now);
      var rest := GroupedRebuild(step.0, files, ps[1..], codec, now);
      (rest.0, step.1 + rest.1)
  }

  /** `GroupedNoteManager`: the notes directory and its index. */
  class GroupedNoteManager {
    const root: string
    const codec: YamlCodec
    var files: map<string, string>
    const db: NoteDatabase

    /** The index uses the grouped schema. */
    predicate Valid()
      reads this
    {
      db.schema == Grouped
    }

    /** Opening a notes directory with a fresh index. */
    constructor (root: string, codec: YamlCodec, files: map<string, string>)
      ensures Valid()
      ensures this.root == root && this.codec == codec && this.files == files
      ensures fresh(db) && db.tables == Empty
    {
      this.root := root;
      this.codec := codec;
      this.files := files;
      db := new NoteDatabase(Grouped);
    }

    /**
     * `create_note`: stamp the note, find its month's file, append it to
     * the notes already there, write the file back, then index it.
     */
    method CreateNote(note: Note, now: string, ts: string) returns (id: string, stored: Note, err: Option<StoreError>)
      requires Valid()
      modifies this, db
      ensures id == note.id && stored == Stamped(note, now)
      ensures GroupedPath(root, stored.moduleName, stored.created).None? ==>
        err == Some(BadTimestamp) && files == old(files) && db.tables == old(db.tables)
      ensures GroupedPath(root, stored.moduleName, stored.created).Some? ==>
        var p := GroupedPath(root, stored.moduleName, stored.created).value;
        match Existing(old(files), p, codec, now)
        case Failure(e) => err == Some(BadFile(e)) && files == old(files) && db.tables == old(db.tables)
        case Success(ns) =>
          && files == old(files)[p := SerializedNotes(ns + [stored], codec, ts)]
          && db.tables == Upsert(old(db.tables), Grouped, stored, Some(p)).0
          && err == Lift(Upsert(old(db.tables), Grouped, stored, Some(p)).1)
    {
      id := note.id;
      stored := note;
      if stored.created == "" {
        stored := stored.(created := now);
      }
      stored := stored.(modified := now);
      var path := GroupedPath(root, stored.moduleName, stored.created);
      if path.None? {
        return id, stored, Some(BadTimestamp);
      }
      var p := path.value;
      var ns: seq<Note> := [];
      if p in files {
        var r := ParseFile(files[p], codec, now);
        if r.Failure? {
          return id, stored, Some(BadFile(r.error));
        }
        ns := r.value;
      }
      var text := SerializeNotes(ns + [stored], codec, ts);
      files := files[p := text];
      var e := db.IndexNote(stored, Some(p));
      err := Lift(e);
    }

    /**
     * `update_note`: stamp `modified`; a note the index has no file for is
     * created; otherwise it is replaced in (or appended to) the file the
     * index names, and re-indexed there.
     */
    method UpdateNote(note: Note, now: string, ts: string) returns (stored: Note, err: Option<StoreError>)
      requires Valid()
      modifies this, db
      ensures FilePathOf(old(db.tables), note.id) in {None, Some("")} ==> stored == Stamped(note, now)
      ensures FilePathOf(old(db.tables), note.id) !in {None, Some("")} ==> stored == note.(modified := now)
      ensures FilePathOf(old(db.tables), note.id) in {None, Some("")} ==>
        var p := GroupedPath(root, stored.moduleName, stored.created);
        && (p.None? ==> err == Some(BadTimestamp) && files == old(files) && db.tables == old(db.tables))
        && (p.Some? && Existing(old(files), p.value, codec, now).Failure? ==>
              err == Some(BadFile(Existing(old(files), p.value, codec, now).error)) && files == old(files) && db.tables == old(db.tables))
        && (p.Some? && Existing(old(files), p.value, codec, now).Success? ==>
              && files == old(files)[p.value := SerializedNotes(Existing(old(files), p.value, codec, now).value + [stored], codec, ts)]
              && db.tables == Upsert(old(db.tables), Grouped, stored, p).0
              && err == Lift(Upsert(old(db.tables), Grouped, stored, p).1))
      ensures FilePathOf(old(db.tables), note.id) !in {None, Some("")} ==>
        var fp := FilePathOf(old(db.tables), note.id).value;
        var n := note.(modified := now);
        && (fp !in old(files) ==> err == Some(MissingFile(fp)) && files == old(files) && db.tables == old(db.tables))
        && (fp in old(files) ==>
              match NotesOf(Sections(old(files)[fp], 0), codec, now)
              case Failure(e) => err == Some(BadFile(e)) && files == old(files) && db.tables == old(db.tables)
              case Success(ns) =>
                && files == old(files)[fp := SerializedNotes(ReplaceOrAppend(ns, n), codec, ts)]
                && db.tables == Upsert(old(db.tables), Grouped, n, Some(fp)).0
                && err == Lift(Upsert(old(db.tables), Grouped, n, Some(fp)).1))
    {
      var n := note.(modified := now);
      var fp := FilePathOf(db.tables, note.id);
      if fp.None? || fp.value == "" {
        var _, s, e := CreateNote(n, now, ts);
        return s, e;
      }
      stored := n;
      if fp.value !in files {
        return stored, Some(MissingFile(fp.value));
      }
      var r := ParseFile(files[fp.value], codec, now);
      if r.Failure? {
        return stored, Some(BadFile(r.error));
      }
      var ns := UpdateInList(r.value, n);
      var text := SerializeNotes(ns, codec, ts);
      files := files[fp.value := text];
      var e := db.IndexNote(n, fp);
      err := Lift(e);
    }

    /**
     * `delete_note`: drop the note from the file the index names (an error
     * there raises before the index is touched), then delete it from the
     * index, with the cascade.
     */
    method DeleteNote(id: string, now: string, ts: string) returns (err: Option<StoreError>)
      requires Valid()
      modifies this, db
      ensures FilePathOf(old(db.tables), id) in {None, Some("")} ==>
        err.None? && files == old(files) && db.tables == RemoveNote(old(db.tables), id)
      ensures FilePathOf(old(db.tables), id) !in {None, Some("")} ==>
        var fp := FilePathOf(old(db.tables), id).value;
        && (fp !in old(files) ==> err == Some(MissingFile(fp)) && files == old(files) && db.tables == old(db.tables))
        && (fp in old(files) ==>
              match NotesOf(Sections(old(files)[fp], 0), codec, now)
              case Failure(e) => err == Some(BadFile(e)) && files == old(files) && db.tables == old(db.tables)
              case Success(ns) =>
                && err.None?
                && files == old(files)[fp := SerializedNotes(WithoutId(ns, id), codec, ts)]
                && db.tables == RemoveNote(old(db.tables), id))
    {
      var fp := FilePathOf(db.tables, id);
      if fp.Some? && fp.value != "" {
        if fp.value !in files {
          return Some(MissingFile(fp.value));
        }
        var r := ParseFile(files[fp.value], codec, now);
        if r.Failure? {
          return Some(BadFile(r.error));
        }
        var text := SerializeNotes(WithoutId(r.value, id), codec, ts);
        files := files[fp.value := text];
      }
      db.DeleteNote(id);
      err := None;
    }

    /** `rebuild_index`: index the notes of every grouped file outside the index directory; count them. */
    method RebuildIndex(listing: seq<string>, now: string) returns (count: nat)
      requires Valid()
      modifies db
      ensures db.tables == GroupedRebuild(old(db.tables), files, listing, codec, now).0
      ensures count == GroupedRebuild(old(db.tables), files, listing, codec, now).1
    {
      count := 0;
      ghost var t0 := db.tables;
      for i := 0 to |listing|
        invariant GroupedRebuild(db.tables, files, listing[i..], codec, now).0 == GroupedRebuild(t0, files, listing, codec, now).0
        invariant count + GroupedRebuild(db.tables, files, listing[i..], codec, now).1 == GroupedRebuild(t0, files, listing, codec, now).1
      {
        assert listing[i..][1..] == listing[i + 1..];
        var k := IndexFile(listing[i], now);
        count := count + k;
      }
    }

    /** The body of the `rebuild_index` loop for one file: a parse error is caught and nothing is counted. */
    method IndexFile(p: string, now: string) returns (k: nat)
      requires Valid()
      modifies db
      ensures db.tables == GroupedRebuildStep(old(db.tables), files, p, codec, now).0
      ensures k == GroupedRebuildStep(old(db.tables), files, p, codec, now).1
    {
      if !Indexable(p) || p !in files {
        return 0;
      }
      var r := ParseFile(files[p], codec, now);
      if r.Failure? {
        return 0;
      }
      k := IndexNotes(r.value, p);
    }

    /** The loop over one file's notes: index and count each, stopping at the first that raises. */
    method IndexNotes(ns: seq<Note>, p: string) returns (k: nat)
      requires Valid()
      modifies db
      ensures db.tables == IndexAll(old(db.tables), ns, p).0
      ensures k == IndexAll(old(db.tables), ns, p).1
    {
      k := 0;
      ghost var t0 := db.tables;
      var i := 0;
      while i < |ns|
        invariant 0 <= i <= |ns|
        invariant IndexAll(db.tables, ns[i..], p).0 == IndexAll(t0, ns, p).0
        invariant k + IndexAll(db.tables, ns[i..], p).1 == IndexAll(t0, ns, p).1
      {
        assert ns[i..][1..] == ns[i + 1..];
        var e := db.IndexNote(ns[i], Some(p));
        if e.Some? {
          return;
        }
        k := k + 1;
        i := i + 1;
      }
    }
  }

  /** A note `index_note` accepts whatever the index holds: no tag twice, no link key twice. */
  predicate Clean(n: Note) {
    Distinct(n.tags) && Distinct(LinkKeys(n.links))
  }

  /** How many notes at the front of the list are clean. */
  function CleanPrefix(ns: seq<Note>): (r: nat)
    ensures r <= |ns|
    ensures forall j :: 0 <= j < r ==> Clean(ns[j])
    ensures r < |ns| ==> !Clean(ns[r])
    decreases |ns|
  {
    if ns == [] || !Clean(ns[0]) then 0 else 1 + CleanPrefix(ns[1..])
  }

  /**
   * The count one file adds is the length of its leading run of clean
   * notes: it does not depend on what was indexed before.
   */
  lemma {:induction false} IndexAllCount(t: Tables, ns: seq<Note>, p: string)
    ensures IndexAll(t, ns, p).1 == CleanPrefix(ns)
    decreases |ns|
  {
    if ns != [] {
      UpsertOutcome(t, Grouped, ns[0], Some(p));
      IndexAllCount(Upsert(t, Grouped, ns[0], Some(p)).0, ns[1..], p);
    }
  }

  /** What one listed file adds to the count: its leading clean notes, or nothing when it is skipped or fails to parse. */
  function FileCount(files: map<string, string>, p: string, codec: YamlCodec, now: string): nat {
    if !Indexable(p) || p !in files then 0
    else
      match NotesOf(Sections(files[p], 0), codec, now)
      case Failure(_) => 0
      case Success(ns) => CleanPrefix(ns)
  }

  function TotalCount(files: map<string, string>, ps: seq<string>, codec: YamlCodec, now: string): nat
    decreases |ps|
  {
    if ps == [] then 0 else FileCount(files, ps[0], codec, now) + TotalCount(files, ps[1..], codec, now)
  }

  /** The count `rebuild_index` reports is the sum over the listed files of their leading clean notes. */
  lemma {:induction false} RebuildCount(t: Tables, files: map<string, string>, ps: seq<string>, codec: YamlCodec, now: string)
    ensures GroupedRebuild(t, files, ps, codec, now).1 == TotalCount(files, ps, codec, now)
    decreases |ps|
  {
    if ps != [] {
      var p := ps[0];
      if Indexable(p) && p in files && NotesOf(Sections(files[p], 0), codec, now).Success? {
        IndexAllCount(t, NotesOf(Sections(files[p], 0), codec, now).value, p);
      }
      RebuildCount(GroupedRebuildStep(t, files, p, codec, now).0, files, ps[1..], codec, now);
    }
  }

  lemma {:induction false} IndexAllKeepsWellformed(t: Tables, ns: seq<Note>, p: string)
    requires Wellformed(t, Grouped)
    ensures Wellformed(IndexAll(t, ns, p).0, Grouped)
    decreases |ns|
  {
    if ns != [] {
      UpsertKeepsWellformed(t, Grouped, ns[0], Some(p));
      IndexAllKeepsWellformed(Upsert(t, Grouped, ns[0], Some(p)).0, ns[1..], p);
    }
  }

  /** Every outcome of `rebuild_index` keeps the index's declared constraints. */
  lemma {:induction false} RebuildKeepsWellformed(t: Tables, files: map<string, string>, ps: seq<string>, codec: YamlCodec, now: string)
    requires Wellformed(t, Grouped)
    ensures Wellformed(GroupedRebuild(t, files, ps, codec, now).0, Grouped)
    decreases |ps|
  {
    if ps != [] {
      var p := ps[0];
      if Indexable(p) && p in files && NotesOf(Sections(files[p], 0), codec, now).Success? {
        IndexAllKeepsWellformed(t, NotesOf(Sections(files[p], 0), codec, now).value, p);
      }
      RebuildKeepsWellformed(GroupedRebuildStep(t, files, p, codec, now).0, files, ps[1..], codec, now);
    }
  }

  /**
   * After a successful `create_note`, the index names the note's month
   * file, and `get_note` returns the stamped note (the grouped index keeps
   * no file path in the note it returns).
   */
  lemma CreatedIsIndexed(t: Tables, note: Note, root: string, now: string, p: string)
    requires GroupedPath(root, note.moduleName, Stamped(note, now).created) == Some(p)
    requires Upsert(t, Grouped, Stamped(note, now), Some(p)).1.None?
    ensures Fetch(Upsert(t, Grouped, Stamped(note, now), Some(p)).0, Grouped, note.id)
      == Some(Stored(Stamped(note, now), Grouped, p))
    ensures Stored(Stamped(note, now), Grouped, p).filePath == None
    ensures Stored(Stamped(note, now), Grouped, p).modified == now
    ensures FilePathOf(Upsert(t, Grouped, Stamped(note, now), Some(p)).0, note.id) == Some(p)
  {
    FetchAfterIndex(t, Grouped, Stamped(note, now), p);
    FilePathAfterIndex(t, Grouped, Stamped(note, now), p);
  }

  /**
   * Two notes of one module created in the same month go to the same
   * file: the file name depends only on the year and month.
   */
  lemma SameMonthShareFile(root: string, a: Note, b: Note, now: string)
    requires a.moduleName == b.moduleName
    requires HasIsoDate(Stamped(a, now).created) && HasIsoDate(Stamped(b, now).created)
    requires Stamped(a, now).created[..7] == Stamped(b, now).created[..7]
    ensures GroupedPath(root, a.moduleName, Stamped(a, now).created).Some?
    ensures GroupedPath(root, a.moduleName, Stamped(a, now).created) == GroupedPath(root, b.moduleName, Stamped(b, now).created)
  {
    SameMonthSameFile(root, a.moduleName, Stamped(a, now).created, Stamped(b, now).created);
  }
}
