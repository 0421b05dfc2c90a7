/**
  The handlers of app.py for the document-store backend (app.py:98-167): register,
  login, and the note operations that need a signed-in user. The user behind a
  request is passed in as `currentEmail`, the subject of an already verified token;
  password hashing and checking are parameters.
 */
module MongoApp {
  import opened Wrappers
  import opened Records
  import opened MongoStore
  import Keyed
  import NotesRepository

  /** `find_one({"uniqueID": id})`: where the note with that id sits, if anywhere. */
  function FindNote(notes: seq<NoteDoc>, id: int): Option<nat> {
    Keyed.IndexOfKey(notes, UniqueIdOf, id)
  }

  /** `register`: 409 for an email that is taken, otherwise one more user. */
  method Register(db: MongoDb, email: string, password: string, hashed: string)
    returns (r: Response<UserOut>)
    requires |password| >= 6
    modifies db`users
    ensures email in old(db.users) ==>
      r == HttpError(409, "Email already registered") && db.users == old(db.users)
    ensures email !in old(db.users) ==>
      r == Ok(UserOut(None, email)) && db.users == old(db.users)[email := hashed]
  {
    if email in db.users {
      return HttpError(409, "Email already registered");
    }
    db.users := db.users[email := hashed];
    r := Ok(UserOut(None, email));
  }

  /**
    `login`: succeeds, with the email as the token's subject, exactly when the user
    exists and the password checks against the stored hash; 401 otherwise.
   */
  method Login(db: MongoDb, username: string, password: string, verify: (string, string) -> bool)
    returns (r: Response<string>)
    ensures r.Ok? <==> username in db.users && verify(password, db.users[username])
    ensures r.Ok? ==> r.value == username
    ensures r.HttpError? ==> r == HttpError(401, "Invalid credentials")
  {
    if username !in db.users || !verify(password, db.users[username]) {
      return HttpError(401, "Invalid credentials");
    }
    r := Ok(username);
  }

  /** `create_note`: 401 when the signed-in email has no account, otherwise `add_note`. */
  method CreateNote(db: MongoDb, currentEmail: string, title: string, description: string, now: Time)
    returns (r: Response<NoteOut>)
    requires db.Valid()
    requires title != "" && description != ""
    modifies db`notes
    ensures db.Valid()
    ensures currentEmail !in db.users ==>
      r == HttpError(401, "User not found") && db.notes == old(db.notes)
    ensures currentEmail in db.users ==>
      var d := NoteDoc(NotesRepository.NextUniqueId(old(db.notes)), title, description, now, Some(currentEmail), []);
      db.notes == old(db.notes) + [d] && r == Ok(ToOut(d))
  {
    if currentEmail !in db.users {
      return HttpError(401, "User not found");
    }
    var created := NotesRepository.AddNote(db, currentEmail, title, description, now);
    r := Ok(ToOut(created));
  }

  /**
    `list_notes`: the signed-in user's notes and no one else's, ascending by id,
    each as often as it is stored (the models of `get_all_notes`, whose contract
    gives the multiplicities).
   */
  function ListNotes(notes: seq<NoteDoc>, currentEmail: string): (r: seq<NoteOut>)
    ensures r == Outs(NotesRepository.GetAllNotes(notes, currentEmail))
    ensures forall i, j :: 0 <= i < j < |r| ==> r[i].uniqueId <= r[j].uniqueId
    ensures forall d :: d in notes && d.owner == Some(currentEmail) ==> ToOut(d) in r
    ensures forall i :: 0 <= i < |r| ==>
      exists d :: d in notes && d.owner == Some(currentEmail) && ToOut(d) == r[i]
  {
    var mine := NotesRepository.GetAllNotes(notes, currentEmail);
    OutsOfListing(notes, currentEmail, mine);
    Outs(mine)
  }

  /** The output models of a sorted listing of exactly the owner's notes are sorted and list exactly those notes. */
  lemma OutsOfListing(notes: seq<NoteDoc>, owner: string, mine: seq<NoteDoc>)
    requires Keyed.SortedBy(mine, UniqueIdOf)
    requires forall d :: d in mine <==> d in notes && d.owner == Some(owner)
    ensures var r := Outs(mine);
      && (forall i, j :: 0 <= i < j < |r| ==> r[i].uniqueId <= r[j].uniqueId)
      && (forall d :: d in notes && d.owner == Some(owner) ==> ToOut(d) in r)
      && (forall i :: 0 <= i < |r| ==> exists d :: d in notes && d.owner == Some(owner) && ToOut(d) == r[i])
  {
    var r := Outs(mine);
    forall i, j | 0 <= i < j < |r| ensures r[i].uniqueId <= r[j].uniqueId {
      assert UniqueIdOf(mine[i]) <= UniqueIdOf(mine[j]);
    }
    forall d | d in notes && d.owner == Some(owner) ensures ToOut(d) in r {
      var i :| 0 <= i < |mine| && mine[i] == d;
      assert r[i] == ToOut(d);
    }
    forall i | 0 <= i < |r|
      ensures exists d :: d in notes && d.owner == Some(owner) && ToOut(d) == r[i]
    {
      assert mine[i] in mine;
    }
  }

  /**
    The `$push` at position 0 of the previous texts and the `$set` of the new ones:
    the id, creation time and owner stay, the history grows by one snapshot of the
    texts before the edit, in front of the old history.
   */
  function EditDoc(d: NoteDoc, title: string, description: string, now: Time): (r: NoteDoc)
    ensures r.uniqueId == d.uniqueId && r.created == d.created && r.owner == d.owner
    ensures r.title == title && r.description == description
    ensures |r.history| == |d.history| + 1 && r.history[1..] == d.history
    ensures r.history[0] == Snapshot(d.title, d.description, now)
  {
    d.(title := title, description := description,
       history := [Snapshot(d.title, d.description, now)] + d.history)
  }

  /**
    `edit_note`: 404 when no note has the id, else 403 when the signed-in user does
    not own it, else the edit of `EditDoc` on that note alone.
   */
  method EditNote(db: MongoDb, uniqueId: int, currentEmail: string, title: string, description: string, now: Time)
    returns (r: Response<NoteOut>)
    requires db.Valid()
    requires title != "" && description != ""
    modifies db`notes
    ensures db.Valid()
    ensures FindNote(old(db.notes), uniqueId).None? ==>
      r == HttpError(404, "Note not found") && db.notes == old(db.notes)
    ensures FindNote(old(db.notes), uniqueId).Some? ==>
      var i := FindNote(old(db.notes), uniqueId).value;
      if old(db.notes)[i].owner != Some(currentEmail) then
        r == HttpError(403, "Not allowed") && db.notes == old(db.notes)
      else
        db.notes == old(db.notes)[i := EditDoc(old(db.notes)[i], title, description, now)]
        && r == Ok(ToOut(db.notes[i]))
  {
    var found := FindNote(db.notes, uniqueId);
    if found.None? {
      return HttpError(404, "Note not found");
    }
    var i := found.value;
    var current := db.notes[i];
    if current.owner != Some(currentEmail) {
      return HttpError(403, "Not allowed");
    }
    var updated := EditDoc(current, title, description, now);
    db.notes := db.notes[i := updated];
    r := Ok(ToOut(updated));
  }

  /** `delete_note`: 404, then 403, under the same rules as `edit_note`; otherwise that note is removed. */
  method DeleteNote(db: MongoDb, uniqueId: int, currentEmail: string) returns (r: Response<()>)
    requires db.Valid()
    modifies db`notes
    ensures db.Valid()
    ensures FindNote(old(db.notes), uniqueId).None? ==>
      r == HttpError(404, "Note not found") && db.notes == old(db.notes)
    ensures FindNote(old(db.notes), uniqueId).Some? ==>
      var i := FindNote(old(db.notes), uniqueId).value;
      if old(db.notes)[i].owner != Some(currentEmail) then
        r == HttpError(403, "Not allowed") && db.notes == old(db.notes)
      else
        db.notes == old(db.notes)[..i] + old(db.notes)[i + 1..] && r == Ok(())
  {
    var found := FindNote(db.notes, uniqueId);
    if found.None? {
      return HttpError(404, "Note not found");
    }
    var i := found.value;
    if db.notes[i].owner != Some(currentEmail) {
      return HttpError(403, "Not allowed");
    }
    DeleteRemovesOnlyThatNote(db.notes, i);
    db.notes := db.notes[..i] + db.notes[i + 1..];
    r := Ok(());
  }

  /** With distinct ids, deleting the note at `i` removes exactly the note with its id and keeps the ids distinct. */
  lemma DeleteRemovesOnlyThatNote(notes: seq<NoteDoc>, i: nat)
    requires Keyed.DistinctKeys(notes, UniqueIdOf) && i < |notes|
    ensures forall d :: d in notes[..i] + notes[i + 1..] <==> d in notes && d.uniqueId != notes[i].uniqueId
    ensures Keyed.DistinctKeys(notes[..i] + notes[i + 1..], UniqueIdOf)
  {
    var rest := notes[..i] + notes[i + 1..];
    assert forall k :: 0 <= k < |rest| ==> rest[k] == notes[if k < i then k else k + 1];
    forall d | d in notes && d.uniqueId != notes[i].uniqueId ensures d in rest {
      var k :| 0 <= k < |notes| && notes[k] == d;
      assert k != i;
      assert rest[if k < i then k else k - 1] == d;
    }
  }

  /**
    Ids are reused: add a note (it gets the next id), delete it again, and the next
    note is handed the very same id.
   */
  lemma IdReusedAfterDeletingNewest(notes: seq<NoteDoc>, d: NoteDoc)
    requires d.uniqueId == NotesRepository.NextUniqueId(notes)
    ensures FindNote(notes + [d], d.uniqueId) == Some(|notes|)
    ensures var s := notes + [d];
      NotesRepository.NextUniqueId(s[..|notes|] + s[|notes| + 1..]) == d.uniqueId
  {
    var s := notes + [d];
    assert forall k :: 0 <= k < |notes| ==> s[k] in notes;
    assert UniqueIdOf(s[|notes|]) == d.uniqueId;
    assert s[..|notes|] + s[|notes| + 1..] == notes;
  }

  /**
    The handlers reuse ids: `create_note`, then `delete_note` of that very note by
    its owner, then `create_note` again hands out the same id, and the collection
    ends with only the second note added.
   */
  method CreateDeleteCreate(db: MongoDb, currentEmail: string, title: string, description: string, now: Time,
                            title': string, description': string, later: Time)
    returns (first: Response<NoteOut>, deleted: Response<()>, second: Response<NoteOut>)
    requires db.Valid()
    requires currentEmail in db.users
    requires title != "" && description != "" && title' != "" && description' != ""
    modifies db`notes
    ensures db.Valid()
    ensures first.Ok? && deleted == Ok(()) && second.Ok?
    ensures first.value.uniqueId == second.value.uniqueId == NotesRepository.NextUniqueId(old(db.notes))
    ensures db.notes == old(db.notes) + [NoteDoc(first.value.uniqueId, title', description', later, Some(currentEmail), [])]
  {
    ghost var before := db.notes;
    first := CreateNote(db, currentEmail, title, description, now);
    ghost var d := db.notes[|before|];
    IdReusedAfterDeletingNewest(before, d);
    deleted := DeleteNote(db, first.value.uniqueId, currentEmail);
    second := CreateNote(db, currentEmail, title', description', later);
  }

  /** One edit request: the new texts and the clock reading when it is applied. */
  datatype Edit = Edit(title: string, description: string, at: Time)

  /** A note after a sequence of successful edits, oldest edit first. */
  function ApplyEdits(d: NoteDoc, edits: seq<Edit>): NoteDoc
    decreases |edits|
  {
    if edits == [] then d
    else
      var last := edits[|edits| - 1];
      EditDoc(ApplyEdits(d, edits[..|edits| - 1]), last.title, last.description, last.at)
  }

  /**
    After N edits the history holds N more snapshots, newest first: entry k records
    the texts the note had just before edit N-1-k, stamped with that edit's time; the
    older history follows unchanged, and the id, creation time and owner never change.
   */
  lemma {:induction false} HistoryGrowsByOnePerEdit(d: NoteDoc, edits: seq<Edit>)
    ensures var e := ApplyEdits(d, edits);
      && |e.history| == |d.history| + |edits|
      && e.history[|edits|..] == d.history
      && e.uniqueId == d.uniqueId && e.created == d.created && e.owner == d.owner
      && (edits != [] ==> e.title == edits[|edits| - 1].title && e.description == edits[|edits| - 1].description)
      && forall k :: 0 <= k < |edits| ==>
           var before := ApplyEdits(d, edits[..|edits| - 1 - k]);
           e.history[k] == Snapshot(before.title, before.description, edits[|edits| - 1 - k].at)
    decreases |edits|
  {
    if edits != [] {
      var n := |edits|;
      var prefix := edits[..n - 1];
      HistoryGrowsByOnePerEdit(d, prefix);
      var p := ApplyEdits(d, prefix);
      var e := ApplyEdits(d, edits);
      assert e.history == [Snapshot(p.title, p.description, edits[n - 1].at)] + p.history;
      forall k | 0 < k < n
        ensures var before := ApplyEdits(d, edits[..n - 1 - k]);
          e.history[k] == Snapshot(before.title, before.description, edits[n - 1 - k].at)
      {
        assert prefix[..|prefix| - 1 - (k - 1)] == edits[..n - 1 - k];
        assert prefix[|prefix| - 1 - (k - 1)] == edits[n - 1 - k];
      }
      assert edits[..n - 1 - 0] == prefix;
    }
  }

  /** History entries are ordered by archival time, most recent first. */
  predicate NewestFirst(h: seq<Snapshot>) {
    forall i, j :: 0 <= i < j < |h| ==> h[i].archivedAt >= h[j].archivedAt
  }

  /** With a clock that never goes back, edits keep a newest-first history newest first. */
  lemma {:induction false} EditsKeepNewestFirst(d: NoteDoc, edits: seq<Edit>)
    requires NewestFirst(d.history)
    requires forall i, j :: 0 <= i < j < |edits| ==> edits[i].at <= edits[j].at
    requires d.history != [] && edits != [] ==> d.history[0].archivedAt <= edits[0].at
    ensures NewestFirst(ApplyEdits(d, edits).history)
    decreases |edits|
  {
    if edits != [] {
      var n := |edits|;
      var prefix := edits[..n - 1];
      EditsKeepNewestFirst(d, prefix);
      var p := ApplyEdits(d, prefix);
      if p.history != [] {
        if n == 1 {
          assert p == d;
        } else {
          assert p.history[0].archivedAt == edits[n - 2].at;
        }
        assert p.history[0].archivedAt <= edits[n - 1].at;
      }
    }
  }
}
