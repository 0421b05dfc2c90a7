/**
  The relational store of models/sql_models.py: the `users`, `notes` and
  `note_history` tables as sequences of rows in insertion order. Primary keys are
  SQLite row ids, which the engine hands out as one more than the largest id in the
  table (database/sql_connect.py:5 selects SQLite by default). The columns are
  declared `autoincrement=True`, but on SQLite SQLAlchemy emits the AUTOINCREMENT
  keyword only for tables marked `sqlite_autoincrement=True`, which these are not,
  so the ids are plain row ids and the id of a deleted newest row is handed out
  again.
 */
module SqlStore {
  import opened Wrappers
  import opened Records
  import Keyed

  /** A `users` row. */
  datatype UserRow = UserRow(id: int, email: string, hashedPassword: string)

  /** A `notes` row: the live fields and the owning user's id. */
  datatype NoteRow = NoteRow(id: int, title: string, description: string, created: Time, ownerId: int)

  /** A `note_history` row: one archived version of a note. */
  datatype HistoryRow = HistoryRow(id: int, noteId: int, title: string, description: string, archivedAt: Time)

  function UserIdOf(u: UserRow): int { u.id }
  function NoteIdOf(n: NoteRow): int { n.id }
  function HistoryIdOf(h: HistoryRow): int { h.id }

  /** `query(User).filter(User.email == email).first()`. */
  function FindUser(users: seq<UserRow>, email: string): (r: Option<UserRow>)
    ensures r.Some? ==> r.value in users && r.value.email == email
    ensures r.None? <==> forall k :: 0 <= k < |users| ==> users[k].email != email
  {
    if users == [] then None
    else if users[0].email == email then Some(users[0])
    else FindUser(users[1..], email)
  }

  /** `query(Note).filter(Note.id == id).first()`: the row's position. */
  function FindNote(notes: seq<NoteRow>, id: int): Option<nat> {
    Keyed.IndexOfKey(notes, NoteIdOf, id)
  }

  /** Some user row has this id. */
  predicate HasUserId(users: seq<UserRow>, id: int) {
    exists k :: 0 <= k < |users| && users[k].id == id
  }

  /**
    Primary keys are unique in each table, `users.email` is unique
    (models/sql_models.py:10) and every note's `owner_id` names a user
    (models/sql_models.py:21).
   */
  predicate ValidTables(users: seq<UserRow>, notes: seq<NoteRow>, history: seq<HistoryRow>) {
    && Keyed.DistinctKeys(users, UserIdOf)
    && Keyed.DistinctKeys(notes, NoteIdOf)
    && Keyed.DistinctKeys(history, HistoryIdOf)
    && (forall i, j :: 0 <= i < |users| && 0 <= j < |users| && i != j ==> users[i].email != users[j].email)
    && (forall i :: 0 <= i < |notes| ==> HasUserId(users, notes[i].ownerId))
  }

  /** Rewriting note rows in place, keeping each row's id and owner, keeps the tables valid. */
  lemma SameKeysKeepValid(users: seq<UserRow>, notes: seq<NoteRow>, notes': seq<NoteRow>, history: seq<HistoryRow>)
    requires ValidTables(users, notes, history)
    requires |notes'| == |notes|
    requires forall k :: 0 <= k < |notes| ==> notes'[k].id == notes[k].id && notes'[k].ownerId == notes[k].ownerId
    ensures ValidTables(users, notes', history)
  {
    assert forall k :: 0 <= k < |notes| ==> NoteIdOf(notes'[k]) == NoteIdOf(notes[k]);
  }

  class SqlDb {
    var users: seq<UserRow>
    var notes: seq<NoteRow>
    var history: seq<HistoryRow>

    /** The invariants of the three tables. */
    ghost predicate Valid()
      reads this
    {
      ValidTables(users, notes, history)
    }

    constructor ()
      ensures Valid()
      ensures users == [] && notes == [] && history == []
    {
      users := [];
      notes := [];
      history := [];
    }
  }
}
