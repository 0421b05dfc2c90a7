/**
  repositories/notes_repository.py: id allocation, insertion and the per-owner
  listing over the `notes` collection.
 */
module NotesRepository {
  import opened Wrappers
  import opened Records
  import opened MongoStore
  import Keyed

  /**
    `_next_unique_id`: 1 on an empty collection, otherwise one more than the largest
    `uniqueID` over the notes of every owner.
   */
  function NextUniqueId(notes: seq<NoteDoc>): (id: int)
    ensures notes == [] ==> id == 1
    ensures forall d :: d in notes ==> d.uniqueId < id
    ensures notes != [] ==> exists d :: d in notes && d.uniqueId == id - 1
  {
    var id := Keyed.NextKey(notes, UniqueIdOf);
    assert notes != [] ==> notes[0] in notes;
    id
  }

  /**
    `add_note`: inserts one document with the fresh id, the given owner and texts and
    an empty history, and returns it.
   */
  method AddNote(db: MongoDb, owner: string, title: string, description: string, now: Time)
    returns (r: NoteDoc)
    requires db.Valid()
    modifies db`notes
    ensures db.Valid()
    ensures r == NoteDoc(NextUniqueId(old(db.notes)), title, description, now, Some(owner), [])
    ensures db.notes == old(db.notes) + [r]
  {
    r := NoteDoc(NextUniqueId(db.notes), title, description, now, Some(owner), []);
    Keyed.AppendKeepsKeysDistinct(db.notes, r, UniqueIdOf);
    db.notes := db.notes + [r];
  }

  /** Sequential inserts receive strictly increasing ids: each is one above the previous. */
  lemma {:induction false} SequentialIdsIncrease(notes: seq<NoteDoc>, d: NoteDoc)
    requires d.uniqueId == NextUniqueId(notes)
    ensures NextUniqueId(notes + [d]) == d.uniqueId + 1
  {
    Keyed.NextKeyAfterAppend(notes, d, UniqueIdOf);
  }

  /**
    `get_all_notes`: exactly the notes whose `owner_key` is `owner`, ascending by
    `uniqueID`.
   */
  function GetAllNotes(notes: seq<NoteDoc>, owner: string): (r: seq<NoteDoc>)
    ensures Keyed.SortedBy(r, UniqueIdOf)
    ensures forall d :: multiset(r)[d] == if d.owner == Some(owner) then multiset(notes)[d] else 0
    ensures forall d :: d in r <==> d in notes && d.owner == Some(owner)
  {
    var mine := Keyed.Filter(notes, (d: NoteDoc) => d.owner == Some(owner));
    var r := Keyed.SortBy(mine, UniqueIdOf);
    assert forall d :: d in r <==> d in multiset(r);
    assert forall d :: d in notes <==> d in multiset(notes);
    r
  }
}
