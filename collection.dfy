/**
 * The package skeleton's note and collection types: a note whose optional
 * containers are filled with empty ones on construction, and a named
 * collection that appends a note it does not hold yet.
 */
module Collection {
  import opened Wrappers

  /** `BasicNote`: a dataclass whose optional containers `__post_init__` fills in. */
  class BasicNote {
    var id: string
    var moduleName: string
    var created: string
    var modified: string
    var content: string
    var title: Option<string>
    var tags: seq<string>
    var links: seq<string>
    var properties: map<string, string>
    var aliases: seq<string>

    /** Construction followed by `__post_init__`: an absent container becomes an empty one, the title stays absent. */
    constructor (id: string, moduleName: string, created: string, modified: string, content: string,
                 title: Option<string>, tags: Option<seq<string>>, links: Option<seq<string>>,
                 properties: Option<map<string, string>>, aliases: Option<seq<string>>)
      ensures this.id == id && this.moduleName == moduleName && this.created == created
      ensures this.modified == modified && this.content == content && this.title == title
      ensures this.tags == tags.GetOr([]) && this.links == links.GetOr([])
      ensures this.properties == properties.GetOr(map[]) && this.aliases == aliases.GetOr([])
    {
      this.id := id;
      this.moduleName := moduleName;
      this.created := created;
      this.modified := modified;
      this.content := content;
      this.title := title;
      this.tags := tags.GetOr([]);
      this.links := links.GetOr([]);
      this.properties := properties.GetOr(map[]);
      this.aliases := aliases.GetOr([]);
    }
  }

  /** `NoteCollection`: a typed, named list of notes. */
  class NoteCollection {
    var colType: string
    var colName: string
    var notes: seq<BasicNote>

    constructor (colType: string, colName: string)
      ensures this.colType == colType && this.colName == colName && notes == []
    {
      this.colType := colType;
      this.colName := colName;
      notes := [];
    }

    /**
     * `_is_note_in_collection`, which the skeleton calls but never defines:
     * taken to be membership by id.
     */
    predicate IsNoteInCollection(note: BasicNote)
      reads this, notes, note
    {
      exists i :: 0 <= i < |notes| && notes[i].id == note.id
    }

    /**
     * `create_note`: a note whose id the collection does not hold is
     * appended; otherwise `update_note`, which does nothing yet, is called.
     * The collection's type and name never change.
     */
    method CreateNote(note: BasicNote)
      modifies this
      ensures colType == old(colType) && colName == old(colName)
      ensures old(IsNoteInCollection(note)) ==> notes == old(notes)
      ensures !old(IsNoteInCollection(note)) ==> notes == old(notes) + [note]
    {
      if !IsNoteInCollection(note) {
        notes := notes + [note];
      }
    }
  }

  /** No two notes of the list share an id. */
  predicate UniqueIds(notes: seq<BasicNote>)
    reads notes
  {
    forall i, j :: 0 <= i < j < |notes| ==> notes[i].id != notes[j].id
  }

  /**
   * `create_note` keeps the collection free of duplicate ids, and afterwards
   * the note's id is in the collection, whichever branch was taken.
   */
  lemma CreateKeepsIdsUnique(before: seq<BasicNote>, after: seq<BasicNote>, note: BasicNote)
    requires UniqueIds(before)
    requires (exists i :: 0 <= i < |before| && before[i].id == note.id) ==> after == before
    requires !(exists i :: 0 <= i < |before| && before[i].id == note.id) ==> after == before + [note]
    ensures UniqueIds(after)
    ensures exists i :: 0 <= i < |after| && after[i].id == note.id
  {
    if !(exists i :: 0 <= i < |before| && before[i].id == note.id) {
      assert after[|before|] == note;
    }
  }
}
