/**
  Scripts/MigrateToBase64_sql.py: one pass over the `notes` table that encodes every
  non-empty title and description not already passing `is_b64`, counting the rows
  it changed. `note_history` and `users` are not touched.
 */
module MigrateSql {
  import opened SqlStore
  import opened B64Text
  import opened MigrationRule
  import Keyed

  /** The loop sets `upd` for this row: one of its texts needs encoding. */
  predicate RowNeedsUpdate(n: NoteRow) {
    NeedsEncoding(n.title) || NeedsEncoding(n.description)
  }

  /** The row after the loop body: both texts migrated, every other column kept. */
  function RewriteRow(n: NoteRow): NoteRow {
    n.(title := Migrated(n.title), description := Migrated(n.description))
  }

  /**
    A rewritten row keeps its id, creation time and owner, and its texts are the
    migrated ones. It differs from the old row exactly when the row needed an
    update, its non-empty texts pass `is_b64`, and it needs no further update.
   */
  lemma RewriteRowMeaning(n: NoteRow)
    ensures var r := RewriteRow(n);
      && r.id == n.id && r.created == n.created && r.ownerId == n.ownerId
      && r.title == Migrated(n.title) && r.description == Migrated(n.description)
      && (r == n <==> !RowNeedsUpdate(n))
      && (r.title == "" || IsB64(r.title)) && (r.description == "" || IsB64(r.description))
      && !RowNeedsUpdate(r)
  {
  }

  /** The loop body for one row: the `upd` flag and the two guarded assignments. */
  method RewriteOne(n: NoteRow) returns (r: NoteRow, upd: bool)
    ensures r == RewriteRow(n)
    ensures upd <==> RowNeedsUpdate(n)
  {
    r := n;
    upd := false;
    if NeedsEncoding(r.title) {
      r := r.(title := B64e(r.title));
      upd := true;
    }
    if NeedsEncoding(r.description) {
      r := r.(description := B64e(r.description));
      upd := true;
    }
  }

  /** How many of `rows` the loop counts in `changed`. */
  function CountUpdates(rows: seq<NoteRow>): nat {
    Keyed.Count(rows, RowNeedsUpdate)
  }

  /**
    `migrate`: every row is replaced by its rewrite, in place, and `changed` counts
    the rows that needed one. The number of rows and every other table are kept.
   */
  method Migrate(db: SqlDb) returns (changed: nat)
    requires db.Valid()
    modifies db`notes
    ensures db.Valid()
    ensures |db.notes| == |old(db.notes)|
    ensures forall k :: 0 <= k < |db.notes| ==> db.notes[k] == RewriteRow(old(db.notes)[k])
    ensures changed == CountUpdates(old(db.notes))
  {
    changed := 0;
    var i := 0;
    while i < |db.notes|
      invariant Keyed.RewrittenUpTo(old(db.notes), db.notes, RewriteRow, i)
      invariant changed == CountUpdates(old(db.notes)[..i])
    {
      var n, upd := RewriteOne(db.notes[i]);
      Keyed.RewriteNext(old(db.notes), db.notes, RewriteRow, i);
      Keyed.CountPrefixStep(old(db.notes), RowNeedsUpdate, i);
      if upd {
        changed := changed + 1;
      }
      db.notes := db.notes[i := n];
      i := i + 1;
    }
    assert old(db.notes)[..i] == old(db.notes);
    RewriteKeepsValid(db.users, old(db.notes), db.notes, db.history);
  }

  /** Rewriting every row keeps the tables valid, since ids and owners stay. */
  lemma RewriteKeepsValid(users: seq<UserRow>, notes: seq<NoteRow>, notes': seq<NoteRow>, history: seq<HistoryRow>)
    requires ValidTables(users, notes, history)
    requires |notes'| == |notes|
    requires forall k :: 0 <= k < |notes| ==> notes'[k] == RewriteRow(notes[k])
    ensures ValidTables(users, notes', history)
  {
    SameKeysKeepValid(users, notes, notes', history);
  }

  /** A second pass over the rewritten table counts nothing and rewrites every row to itself. */
  lemma SecondRunChangesNothing(rows: seq<NoteRow>, once: seq<NoteRow>)
    requires |once| == |rows|
    requires forall k :: 0 <= k < |rows| ==> once[k] == RewriteRow(rows[k])
    ensures CountUpdates(once) == 0
    ensures forall k :: 0 <= k < |once| ==> RewriteRow(once[k]) == once[k]
  {
  }
}
