/**
  repositories/sql_notes_repositories.py: inserting a note row for a user found by
  email, and listing a user's notes as dictionaries. History rows are never read:
  every dictionary carries an empty history.
 */
module SqlNotesRepository {
  import opened Wrappers
  import opened Records
  import opened SqlStore
  import Keyed

  /** The dictionary built for one note row of the user with this email. */
  function RowDoc(n: NoteRow, ownerEmail: string): NoteDoc {
    NoteDoc(n.id, n.title, n.description, n.created, Some(ownerEmail), [])
  }

  /**
    `add_note`: the owner must exist (its id is dereferenced). Exactly one row is
    inserted, under the fresh key, owned by that user; the returned dictionary
    carries the row's id, the email as owner and an empty history.
   */
  method AddNote(db: SqlDb, ownerEmail: string, title: string, description: string, now: Time)
    returns (r: NoteDoc)
    requires db.Valid()
    requires FindUser(db.users, ownerEmail).Some?
    modifies db`notes
    ensures db.Valid()
    ensures var row := NoteRow(Keyed.NextKey(old(db.notes), NoteIdOf), title, description, now,
                               FindUser(db.users, ownerEmail).value.id);
      db.notes == old(db.notes) + [row] && r == RowDoc(row, ownerEmail)
    ensures forall k :: 0 <= k < |old(db.notes)| ==> old(db.notes)[k].id != r.uniqueId
  {
    var owner := FindUser(db.users, ownerEmail).value;
    var k :| 0 <= k < |db.users| && db.users[k] == owner;
    var row := NoteRow(Keyed.NextKey(db.notes, NoteIdOf), title, description, now, owner.id);
    Keyed.AppendKeepsKeysDistinct(db.notes, row, NoteIdOf);
    db.notes := db.notes + [row];
    r := RowDoc(row, ownerEmail);
  }

  /** The dictionaries for `rows`, in order. */
  function RowDocs(rows: seq<NoteRow>, ownerEmail: string): (r: seq<NoteDoc>)
    ensures |r| == |rows|
    ensures forall k :: 0 <= k < |r| ==> r[k] == RowDoc(rows[k], ownerEmail)
  {
    if rows == [] then [] else [RowDoc(rows[0], ownerEmail)] + RowDocs(rows[1..], ownerEmail)
  }

  /** `query(Note).filter(Note.owner_id == owner_id).order_by(Note.id.asc())`. */
  function OwnerRows(notes: seq<NoteRow>, ownerId: int): seq<NoteRow> {
    Keyed.SortBy(Keyed.Filter(notes, (n: NoteRow) => n.ownerId == ownerId), NoteIdOf)
  }

  /** What `get_all_notes` answers: nothing for an unknown email, otherwise one dictionary per row of the query. */
  function Listing(users: seq<UserRow>, notes: seq<NoteRow>, ownerEmail: string): seq<NoteDoc> {
    match FindUser(users, ownerEmail)
    case None => []
    case Some(owner) => RowDocs(OwnerRows(notes, owner.id), ownerEmail)
  }

  lemma ListingOfKnownUser(users: seq<UserRow>, notes: seq<NoteRow>, ownerEmail: string, owner: UserRow)
    requires FindUser(users, ownerEmail) == Some(owner)
    ensures Listing(users, notes, ownerEmail) == RowDocs(OwnerRows(notes, owner.id), ownerEmail)
  {
  }

  /**
    The listing is empty for an unknown email; otherwise it is ascending by id and
    every entry carries the email as owner and an empty history.
   */
  lemma ListingIsSortedAndBare(users: seq<UserRow>, notes: seq<NoteRow>, ownerEmail: string)
    ensures var r := Listing(users, notes, ownerEmail);
      && (FindUser(users, ownerEmail).None? ==> r == [])
      && (forall i, j :: 0 <= i < j < |r| ==> r[i].uniqueId <= r[j].uniqueId)
      && (forall k :: 0 <= k < |r| ==> r[k].owner == Some(ownerEmail) && r[k].history == [])
  {
    if FindUser(users, ownerEmail).Some? {
      var rows := OwnerRows(notes, FindUser(users, ownerEmail).value.id);
      var r := RowDocs(rows, ownerEmail);
      forall i, j | 0 <= i < j < |r| ensures r[i].uniqueId <= r[j].uniqueId {
        assert NoteIdOf(rows[i]) <= NoteIdOf(rows[j]);
      }
    }
  }

  /**
    With a known email, the listing holds a dictionary for every one of that user's
    rows and for nothing else, one per row: it is built entry by entry from a
    selection that holds each of the user's rows exactly as often as the table does.
   */
  lemma ListingIsExactlyOwnersRows(users: seq<UserRow>, notes: seq<NoteRow>, ownerEmail: string, owner: UserRow)
    requires FindUser(users, ownerEmail) == Some(owner)
    ensures var rows := OwnerRows(notes, owner.id);
      && Listing(users, notes, ownerEmail) == RowDocs(rows, ownerEmail)
      && forall x :: multiset(rows)[x] == if x.ownerId == owner.id then multiset(notes)[x] else 0
    ensures var r := Listing(users, notes, ownerEmail);
      && (forall n :: n in notes && n.ownerId == owner.id ==> RowDoc(n, ownerEmail) in r)
      && (forall k :: 0 <= k < |r| ==> exists n :: n in notes && n.ownerId == owner.id && RowDoc(n, ownerEmail) == r[k])
  {
    var rows := OwnerRows(notes, owner.id);
    assert forall x: NoteRow :: multiset(rows)[x] == if x.ownerId == owner.id then multiset(notes)[x] else 0;
    DocsOfRows(notes, owner.id, rows, ownerEmail);
  }

  /** The dictionaries of a selection of exactly one owner's rows list exactly those rows. */
  lemma DocsOfRows(notes: seq<NoteRow>, ownerId: int, rows: seq<NoteRow>, ownerEmail: string)
    requires forall x :: multiset(rows)[x] == if x.ownerId == ownerId then multiset(notes)[x] else 0
    ensures var r := RowDocs(rows, ownerEmail);
      && (forall n :: n in notes && n.ownerId == ownerId ==> RowDoc(n, ownerEmail) in r)
      && (forall k :: 0 <= k < |r| ==> exists n :: n in notes && n.ownerId == ownerId && RowDoc(n, ownerEmail) == r[k])
  {
    var r := RowDocs(rows, ownerEmail);
    forall n | n in notes && n.ownerId == ownerId ensures RowDoc(n, ownerEmail) in r {
      assert multiset(rows)[n] == multiset(notes)[n] > 0;
      assert n in rows;
      var i :| 0 <= i < |rows| && rows[i] == n;
      assert r[i] == RowDoc(n, ownerEmail);
    }
    forall k | 0 <= k < |r|
      ensures exists n :: n in notes && n.ownerId == ownerId && RowDoc(n, ownerEmail) == r[k]
    {
      var n := rows[k];
      assert n in multiset(rows);
      assert n.ownerId == ownerId && n in multiset(notes);
    }
  }

  /** The loop of `get_all_notes`: one dictionary per row, appended in order. */
  method DocsOf(rows: seq<NoteRow>, ownerEmail: string) returns (out: seq<NoteDoc>)
    ensures out == RowDocs(rows, ownerEmail)
  {
    out := [];
    var i := 0;
    while i < |rows|
      invariant 0 <= i <= |rows|
      invariant |out| == i
      invariant forall k :: 0 <= k < i ==> out[k] == RowDoc(rows[k], ownerEmail)
    {
      out := out + [RowDoc(rows[i], ownerEmail)];
      i := i + 1;
    }
  }

  /** `get_all_notes`: look the user up, run the ordered query, and build the dictionaries; the answer is `Listing`. */
  method GetAllNotes(db: SqlDb, ownerEmail: string) returns (out: seq<NoteDoc>)
    ensures out == Listing(db.users, db.notes, ownerEmail)
  {
    var owner := FindUser(db.users, ownerEmail);
    if owner.None? {
      return [];
    }
    var rows := OwnerRows(db.notes, owner.value.id);
    out := DocsOf(rows, ownerEmail);
    ListingOfKnownUser(db.users, db.notes, ownerEmail, owner.value);
  }
}
