/**
  The handlers of app.py for the relational backend (app.py:17-96). The user
  behind a request is passed in as `currentEmail`, the subject of an already
  verified token; password hashing and checking are parameters.
 */
module SqlApp {
  import opened Wrappers
  import opened Records
  import opened SqlStore
  import Keyed
  import SqlNotesRepository

  /** `register`: 409 for an email that is taken, otherwise one more `users` row under the fresh key. */
  method Register(db: SqlDb, email: string, password: string, hashed: string) returns (r: Response<UserOut>)
    requires db.Valid()
    requires |password| >= 6
    modifies db`users
    ensures db.Valid()
    ensures FindUser(old(db.users), email).Some? ==>
      r == HttpError(409, "Email already registered") && db.users == old(db.users)
    ensures FindUser(old(db.users), email).None? ==>
      var u := UserRow(Keyed.NextKey(old(db.users), UserIdOf), email, hashed);
      db.users == old(db.users) + [u] && r == Ok(UserOut(Some(u.id), email))
  {
    if FindUser(db.users, email).Some? {
      return HttpError(409, "Email already registered");
    }
    var u := UserRow(Keyed.NextKey(db.users, UserIdOf), email, hashed);
    Keyed.AppendKeepsKeysDistinct(db.users, u, UserIdOf);
    var users := db.users + [u];
    forall i | 0 <= i < |db.notes| ensures HasUserId(users, db.notes[i].ownerId) {
      var k :| 0 <= k < |db.users| && db.users[k].id == db.notes[i].ownerId;
      assert users[k] == db.users[k];
    }
    db.users := users;
    r := Ok(UserOut(Some(u.id), email));
  }

  /**
    `login`: succeeds, with the stored email as the token's subject, exactly when a
    user has that email and the password checks against its hash; 401 otherwise.
   */
  method Login(db: SqlDb, username: string, password: string, verify: (string, string) -> bool)
    returns (r: Response<string>)
    ensures r.Ok? <==> FindUser(db.users, username).Some? && verify(password, FindUser(db.users, username).value.hashedPassword)
    ensures r.Ok? ==> r.value == username
    ensures r.HttpError? ==> r == HttpError(401, "Invalid credentials")
  {
    var u := FindUser(db.users, username);
    if u.None? || !verify(password, u.value.hashedPassword) {
      return HttpError(401, "Invalid credentials");
    }
    r := Ok(u.value.email);
  }

  /** `create_note`: 401 when the signed-in email has no account, otherwise `add_note`. */
  method CreateNote(db: SqlDb, currentEmail: string, title: string, description: string, now: Time)
    returns (r: Response<NoteOut>)
    requires db.Valid()
    requires title != "" && description != ""
    modifies db`notes
    ensures db.Valid()
    ensures FindUser(db.users, currentEmail).None? ==>
      r == HttpError(401, "User not found") && db.notes == old(db.notes)
    ensures FindUser(db.users, currentEmail).Some? ==>
      var row := NoteRow(Keyed.NextKey(old(db.notes), NoteIdOf), title, description, now,
                         FindUser(db.users, currentEmail).value.id);
      db.notes == old(db.notes) + [row] && r == Ok(NoteOut(row.id, title, description, now, []))
  {
    if FindUser(db.users, currentEmail).None? {
      return HttpError(401, "User not found");
    }
    var created := SqlNotesRepository.AddNote(db, currentEmail, title, description, now);
    r := Ok(ToOut(created));
  }

  /** `list_notes`: the output models of `get_all_notes`. */
  method ListNotes(db: SqlDb, currentEmail: string) returns (r: seq<NoteOut>)
    ensures r == Outs(SqlNotesRepository.Listing(db.users, db.notes, currentEmail))
    ensures forall k :: 0 <= k < |r| ==> r[k].history == []
  {
    var docs := SqlNotesRepository.GetAllNotes(db, currentEmail);
    SqlNotesRepository.ListingIsSortedAndBare(db.users, db.notes, currentEmail);
    r := Outs(docs);
  }

  /** The ownership test of `edit_note` and `delete_note`: a user has this email and owns the row. */
  predicate OwnedBy(users: seq<UserRow>, n: NoteRow, email: string) {
    FindUser(users, email).Some? && n.ownerId == FindUser(users, email).value.id
  }

  /**
    `edit_note`: 404 when no row has the id, else 403 unless the signed-in user owns
    it, else one `note_history` row holding the previous texts is added and the live
    texts are replaced; the response carries no history.
   */
  method EditNote(db: SqlDb, uniqueId: int, currentEmail: string, title: string, description: string, now: Time)
    returns (r: Response<NoteOut>)
    requires db.Valid()
    requires title != "" && description != ""
    modifies db`notes, db`history
    ensures db.Valid()
    ensures FindNote(old(db.notes), uniqueId).None? ==>
      r == HttpError(404, "Note not found") && db.notes == old(db.notes) && db.history == old(db.history)
    ensures FindNote(old(db.notes), uniqueId).Some? ==>
      var i := FindNote(old(db.notes), uniqueId).value;
      var n := old(db.notes)[i];
      if !OwnedBy(db.users, n, currentEmail) then
        r == HttpError(403, "Not allowed") && db.notes == old(db.notes) && db.history == old(db.history)
      else
        && db.history == old(db.history) + [HistoryRow(Keyed.NextKey(old(db.history), HistoryIdOf), n.id, n.title, n.description, now)]
        && db.notes == old(db.notes)[i := n.(title := title, description := description)]
        && r == Ok(NoteOut(n.id, title, description, n.created, []))
  {
    var found := FindNote(db.notes, uniqueId);
    if found.None? {
      return HttpError(404, "Note not found");
    }
    var i := found.value;
    var n := db.notes[i];
    if !OwnedBy(db.users, n, currentEmail) {
      return HttpError(403, "Not allowed");
    }
    var hist := HistoryRow(Keyed.NextKey(db.history, HistoryIdOf), n.id, n.title, n.description, now);
    Keyed.AppendKeepsKeysDistinct(db.history, hist, HistoryIdOf);
    db.history := db.history + [hist];
    var edited := n.(title := title, description := description);
    db.notes := db.notes[i := edited];
    r := Ok(NoteOut(edited.id, edited.title, edited.description, edited.created, []));
  }

  /**
    `delete_note`: 404, then 403, under the same rules as `edit_note`; otherwise the
    row is deleted. Its `note_history` rows are left in place.
   */
  method DeleteNote(db: SqlDb, uniqueId: int, currentEmail: string) returns (r: Response<()>)
    requires db.Valid()
    modifies db`notes
    ensures db.Valid()
    ensures db.history == old(db.history)
    ensures FindNote(old(db.notes), uniqueId).None? ==>
      r == HttpError(404, "Note not found") && db.notes == old(db.notes)
    ensures FindNote(old(db.notes), uniqueId).Some? ==>
      var i := FindNote(old(db.notes), uniqueId).value;
      if !OwnedBy(db.users, old(db.notes)[i], currentEmail) then
        r == HttpError(403, "Not allowed") && db.notes == old(db.notes)
      else
        db.notes == old(db.notes)[..i] + old(db.notes)[i + 1..] && r == Ok(())
  {
    var found := FindNote(db.notes, uniqueId);
    if found.None? {
      return HttpError(404, "Note not found");
    }
    var i := found.value;
    if !OwnedBy(db.users, db.notes[i], currentEmail) {
      return HttpError(403, "Not allowed");
    }
    var rest := db.notes[..i] + db.notes[i + 1..];
    assert forall k :: 0 <= k < |rest| ==> rest[k] == db.notes[if k < i then k else k + 1];
    db.notes := rest;
    r := Ok(());
  }
}
