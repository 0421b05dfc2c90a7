/**
  repo/notes_repository.py: the same collection without owners. Notes are inserted
  with no `owner_key`, and the listing returns every note.
 */
module OwnerlessNotesRepository {
  import opened Wrappers
  import opened Records
  import opened MongoStore
  import Keyed
  import NotesRepository

  /**
    `add_note`: inserts one document with the id `_next_unique_id` allocates (the
    same max-plus-one rule), the given texts, an empty history and no owner.
   */
  method AddNote(db: MongoDb, title: string, description: string, now: Time) returns (r: NoteDoc)
    requires db.Valid()
    modifies db`notes
    ensures db.Valid()
    ensures r == NoteDoc(NotesRepository.NextUniqueId(old(db.notes)), title, description, now, None, [])
    ensures db.notes == old(db.notes) + [r]
  {
    r := NoteDoc(NotesRepository.NextUniqueId(db.notes), title, description, now, None, []);
    Keyed.AppendKeepsKeysDistinct(db.notes, r, UniqueIdOf);
    db.notes := db.notes + [r];
  }

  /** `get_all_notes`: every note, owned or not, ascending by `uniqueID`. */
  function GetAllNotes(notes: seq<NoteDoc>): (r: seq<NoteDoc>)
    ensures Keyed.SortedBy(r, UniqueIdOf)
    ensures multiset(r) == multiset(notes)
  {
    Keyed.SortBy(notes, UniqueIdOf)
  }
}
