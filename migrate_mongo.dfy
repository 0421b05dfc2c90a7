/**
  Scripts/MigrateToBase64_mongo.py: one pass over the `notes` collection that
  encodes the texts of every document and of its history entries, writing back
  only the documents where something was encoded and counting them.

  The top-level texts and the history texts follow different guards. A top-level
  text is encoded when it is present and fails `is_b64`, so a present "" is
  "encoded" (to "") and its document written. A history text is encoded only when
  it is non-empty and fails `is_b64` (`MigrationRule.NeedsEncoding`).
 */
module MigrateMongo {
  import opened Wrappers
  import opened Records
  import opened B64Text
  import opened MigrationRule
  import Keyed

  /** A document field: absent, present and null, or present with a value. */
  datatype Field<T> = Missing | Null | Present(value: T)

  /** `doc.get(key)`: an absent field and a null one both read as None. */
  function Get<T>(f: Field<T>): Option<T> {
    if f.Present? then Some(f.value) else None
  }

  /** How a value is written back by `$set`: None is stored as null. */
  function Put<T>(v: Option<T>): Field<T> {
    if v.Some? then Present(v.value) else Null
  }

  /** A `note_history` entry as stored: the three fields the script reads, and any other keys. */
  datatype Entry = Entry(title: Field<string>, description: Field<string>, archivedAt: Field<Time>, extra: map<string, string>)

  /**
    A `notes` document: `_id`, the two texts, `note_history` (None when the field
    is absent) and the fields the script neither reads nor writes.
   */
  datatype Doc = Doc(id: int, title: Field<string>, description: Field<string>,
                     history: Option<seq<Entry>>, rest: map<string, string>)

  /** `doc.get("note_history", [])`. */
  function Hist(d: Doc): seq<Entry> {
    if d.history.Some? then d.history.value else []
  }

  // ---------- history entries ----------

  /** `h.get(key, "")`: an absent text reads as "", a null one as None. */
  function HistText(f: Field<string>): Option<string> {
    match f
    case Missing => Some("")
    case Null => None
    case Present(s) => Some(s)
  }

  /** `t and not is_b64(t)` on a text that may be None. */
  predicate OptNeedsEncoding(t: Option<string>) {
    t.Some? && NeedsEncoding(t.value)
  }

  /** `ch` for an entry: one of its texts is encoded. */
  predicate EntryChanged(h: Entry) {
    OptNeedsEncoding(HistText(h.title)) || OptNeedsEncoding(HistText(h.description))
  }

  /** A history text after `if t and not is_b64(t): t = b64e(t)`. */
  function MigratedOpt(t: Option<string>): Option<string> {
    if OptNeedsEncoding(t) then Some(B64e(t.value)) else t
  }

  /** Every text of the entry that is present and non-empty passes `is_b64`. */
  predicate EntryEncoded(h: Entry) {
    && (h.title.Present? && h.title.value != "" ==> IsB64(h.title.value))
    && (h.description.Present? && h.description.value != "" ==> IsB64(h.description.value))
  }

  /** The entry `new_hist` receives for `h`: exactly the three fields. */
  function RewriteEntry(h: Entry): Entry {
    Entry(Put(MigratedOpt(HistText(h.title))), Put(MigratedOpt(HistText(h.description))),
          Put(Get(h.archivedAt)), map[])
  }

  /**
    A rewritten entry keeps only the three fields; an absent text is stored as "",
    a null one stays null, `archived_at` is copied (an absent one stored as null),
    and each present text is migrated. The result is encoded and needs no further
    change.
   */
  lemma RewriteEntryMeaning(h: Entry)
    ensures var r := RewriteEntry(h);
      && r.extra == map[]
      && Get(r.archivedAt) == Get(h.archivedAt) && !r.archivedAt.Missing?
      && (h.title.Missing? ==> r.title == Present(""))
      && (h.title.Null? ==> r.title == Null)
      && (h.title.Present? ==> r.title == Present(Migrated(h.title.value)))
      && (h.description.Missing? ==> r.description == Present(""))
      && (h.description.Null? ==> r.description == Null)
      && (h.description.Present? ==> r.description == Present(Migrated(h.description.value)))
      && EntryEncoded(r)
      && !EntryChanged(r)
  {
    var r := RewriteEntry(h);
    var t := HistText(h.title);
    var d := HistText(h.description);
    if t.Some? {
      assert MigratedOpt(t) == Some(Migrated(t.value));
    }
    if d.Some? {
      assert MigratedOpt(d) == Some(Migrated(d.value));
    }
  }

  /** The loop body of the history loop: `t`, `d`, `ch` and the entry appended. */
  method RewriteEntryStep(h: Entry) returns (e: Entry, ch: bool)
    ensures e == RewriteEntry(h)
    ensures ch <==> EntryChanged(h)
  {
    var t := HistText(h.title);
    var d := HistText(h.description);
    ch := false;
    if t.Some? && NeedsEncoding(t.value) {
      t := Some(B64e(t.value));
      ch := true;
    }
    if d.Some? && NeedsEncoding(d.value) {
      d := Some(B64e(d.value));
      ch := true;
    }
    e := Entry(Put(t), Put(d), Put(Get(h.archivedAt)), map[]);
  }

  /** Some entry of `hist` has a text to encode. */
  predicate HistoryChanged(hist: seq<Entry>) {
    exists k :: 0 <= k < |hist| && EntryChanged(hist[k])
  }

  /** `new_hist`: each entry rewritten, in the same order. */
  function RewriteEntries(hist: seq<Entry>): (r: seq<Entry>)
    ensures |r| == |hist|
    ensures forall k :: 0 <= k < |r| ==> r[k] == RewriteEntry(hist[k])
  {
    if hist == [] then [] else [RewriteEntry(hist[0])] + RewriteEntries(hist[1..])
  }

  /** The history loop: builds `new_hist` by appending and raises `hist_changed` when an entry changed. */
  method RewriteHistory(hist: seq<Entry>) returns (newHist: seq<Entry>, histChanged: bool)
    ensures newHist == RewriteEntries(hist)
    ensures histChanged <==> HistoryChanged(hist)
  {
    newHist := [];
    histChanged := false;
    for i := 0 to |hist|
      invariant |newHist| == i && Keyed.MappedPrefix(hist, newHist, RewriteEntry)
      invariant histChanged <==> Keyed.Count(hist[..i], EntryChanged) != 0
    {
      var e, ch := RewriteEntryStep(hist[i]);
      Keyed.MappedPrefixNext(hist, newHist, RewriteEntry);
      Keyed.CountPrefixStep(hist, EntryChanged, i);
      if ch {
        histChanged := true;
      }
      newHist := newHist + [e];
    }
    assert hist[..|hist|] == hist;
  }

  // ---------- documents ----------

  /** `x is not None and not is_b64(x)`: the top-level guard, which lets "" through. */
  predicate TopNeedsEncoding(f: Field<string>) {
    f.Present? && !IsB64(f.value)
  }

  /** A top-level text after `if x is not None and not is_b64(x): x = b64e(x)`. */
  function TopMigrated(f: Field<string>): Option<string> {
    if TopNeedsEncoding(f) then Some(B64e(f.value)) else Get(f)
  }

  /**
    None stays None, a text passing `is_b64` is kept, any other text (the empty one
    included) is replaced by its encoding, which decodes back to it; a resulting
    text is empty or passes `is_b64`.
   */
  lemma TopMigratedMeaning(f: Field<string>)
    ensures var r := TopMigrated(f);
      && (r.None? <==> Get(f).None?)
      && (f.Present? && IsB64(f.value) ==> r == Some(f.value))
      && (TopNeedsEncoding(f) ==> r == Some(B64e(f.value)) && B64d(r.value) == f.value)
      && (r.Some? ==> r.value == "" || IsB64(r.value))
  {
    if TopNeedsEncoding(f) {
      RoundTrip(f.value);
      if f.value != "" {
        EncodedIsB64(f.value);
      }
    }
  }

  /** `needs_update`: a top-level text or a history entry is encoded. */
  predicate NeedsUpdate(d: Doc) {
    TopNeedsEncoding(d.title) || TopNeedsEncoding(d.description) || HistoryChanged(Hist(d))
  }

  /** The document after `update_one`: `$set` of the two texts (None as null) and the new history. */
  function Written(d: Doc): Doc {
    d.(title := Put(TopMigrated(d.title)), description := Put(TopMigrated(d.description)),
       history := Some(RewriteEntries(Hist(d))))
  }

  /** Every text of the document and of its history that is present and non-empty passes `is_b64`. */
  predicate AllEncoded(d: Doc) {
    && (d.title.Present? && d.title.value != "" ==> IsB64(d.title.value))
    && (d.description.Present? && d.description.value != "" ==> IsB64(d.description.value))
    && (forall k :: 0 <= k < |Hist(d)| ==> EntryEncoded(Hist(d)[k]))
  }

  /** A document after the pass: written when it needs an update, untouched otherwise. */
  function MigrateDoc(d: Doc): (r: Doc)
    ensures r.id == d.id && r.rest == d.rest
  {
    if NeedsUpdate(d) then Written(d) else d
  }

  /**
    Only the two texts and the history can change; the texts read as their
    top-level migration; a written document gets the rewritten history; and
    everything present and non-empty ends up passing `is_b64`.
   */
  lemma MigrateDocMeaning(d: Doc)
    ensures var r := MigrateDoc(d);
      && r.id == d.id && r.rest == d.rest
      && (!NeedsUpdate(d) ==> r == d)
      && Get(r.title) == TopMigrated(d.title) && Get(r.description) == TopMigrated(d.description)
      && (NeedsUpdate(d) ==> r.history == Some(RewriteEntries(Hist(d))))
      && AllEncoded(r)
  {
    TopMigratedMeaning(d.title);
    TopMigratedMeaning(d.description);
    var r := MigrateDoc(d);
    if NeedsUpdate(d) {
      forall k | 0 <= k < |Hist(r)| ensures EntryEncoded(Hist(r)[k]) {
        RewriteEntryMeaning(Hist(d)[k]);
      }
    } else {
      forall k | 0 <= k < |Hist(d)| ensures EntryEncoded(Hist(d)[k]) {
        assert !EntryChanged(Hist(d)[k]);
      }
    }
  }

  /** The `notes` collection the script iterates over, in `find({})` order. */
  class Collection {
    var docs: seq<Doc>

    constructor (docs: seq<Doc>)
      ensures this.docs == docs
    {
      this.docs := docs;
    }
  }

  /**
    The loop body for one document: the two guarded top-level rewrites, the
    history loop, and the document `update_one` would store (the document itself
    when nothing needed an update).
   */
  method MigrateOne(doc: Doc) returns (newDoc: Doc, needsUpdate: bool)
    ensures newDoc == MigrateDoc(doc)
    ensures needsUpdate <==> NeedsUpdate(doc)
    ensures !needsUpdate ==> newDoc == doc
  {
    needsUpdate := false;
    var title := Get(doc.title);
    var desc := Get(doc.description);
    if title.Some? && !IsB64(title.value) {
      title := Some(B64e(title.value));
      needsUpdate := true;
    }
    if desc.Some? && !IsB64(desc.value) {
      desc := Some(B64e(desc.value));
      needsUpdate := true;
    }
    var newHist, histChanged := RewriteHistory(Hist(doc));
    if histChanged {
      needsUpdate := true;
    }
    newDoc := if needsUpdate then doc.(title := Put(title), description := Put(desc), history := Some(newHist)) else doc;
  }

  /**
    `migrate`: every document becomes its `MigrateDoc`, in place, and `count` is the
    number of documents written.
   */
  method Migrate(col: Collection) returns (count: nat)
    modifies col
    ensures |col.docs| == |old(col.docs)|
    ensures forall k :: 0 <= k < |col.docs| ==> col.docs[k] == MigrateDoc(old(col.docs)[k])
    ensures count == Keyed.Count(old(col.docs), NeedsUpdate)
  {
    count := 0;
    for i := 0 to |col.docs|
      invariant Keyed.RewrittenUpTo(old(col.docs), col.docs, MigrateDoc, i)
      invariant count == Keyed.Count(old(col.docs)[..i], NeedsUpdate)
    {
      var doc := col.docs[i];
      var newDoc, needsUpdate := MigrateOne(doc);
      Keyed.RewriteNext(old(col.docs), col.docs, MigrateDoc, i);
      Keyed.CountPrefixStep(old(col.docs), NeedsUpdate, i);
      if needsUpdate {
        col.docs := col.docs[i := newDoc];
        count := count + 1;
      } else {
        assert col.docs[i := newDoc] == col.docs;
      }
    }
    assert old(col.docs)[..|col.docs|] == old(col.docs);
  }

  /**
    A second pass changes no document, yet it writes and counts again exactly the
    documents that had a present "" title or description: the top-level guard lets
    "" through, and encoding "" gives "" back.
   */
  lemma SecondPassRewritesEmptyTexts(d: Doc)
    ensures MigrateDoc(MigrateDoc(d)) == MigrateDoc(d)
    ensures NeedsUpdate(MigrateDoc(d)) <==> d.title == Present("") || d.description == Present("")
  {
    var r := MigrateDoc(d);
    MigrateDocMeaning(d);
    TopAfterPass(d.title, r.title);
    TopAfterPass(d.description, r.description);
    assert !HistoryChanged(Hist(r)) by {
      if NeedsUpdate(d) {
        forall k | 0 <= k < |Hist(r)| ensures !EntryChanged(Hist(r)[k]) {
          RewriteEntryMeaning(Hist(d)[k]);
        }
      }
    }
    if NeedsUpdate(r) {
      EmptyIsNotB64();
      assert NeedsUpdate(d);
      TopWrittenAgain(r.title);
      TopWrittenAgain(r.description);
      forall k | 0 <= k < |Hist(r)| ensures RewriteEntry(Hist(r)[k]) == Hist(r)[k] {
        RewriteEntryMeaning(Hist(d)[k]);
        EntryRewriteStable(Hist(r)[k]);
      }
      assert RewriteEntries(Hist(r)) == Hist(r);
      assert Written(r) == r;
    }
  }

  /** A top-level text that went through the pass needs encoding again exactly when it was a present "". */
  lemma TopAfterPass(f: Field<string>, g: Field<string>)
    requires Get(g) == TopMigrated(f)
    ensures TopNeedsEncoding(g) <==> f == Present("")
  {
    TopMigratedMeaning(f);
    EmptyIsNotB64();
  }

  /** Writing a written top-level text again stores the same field. */
  lemma TopWrittenAgain(f: Field<string>)
    requires !f.Missing?
    requires f.Present? ==> f.value == "" || IsB64(f.value)
    ensures Put(TopMigrated(f)) == f
  {
    EmptyIsNotB64();
  }

  /** `is_b64("")` is False, and encoding "" gives "". */
  lemma EmptyIsNotB64()
    ensures !IsB64("") && B64e("") == ""
  {
  }

  /** An entry with no text to encode, whose fields are exactly the three written ones, is rewritten to itself. */
  lemma EntryRewriteStable(h: Entry)
    requires !EntryChanged(h)
    requires h.extra == map[] && !h.archivedAt.Missing? && !h.title.Missing? && !h.description.Missing?
    ensures RewriteEntry(h) == h
  {
    assert !OptNeedsEncoding(HistText(h.title)) && !OptNeedsEncoding(HistText(h.description));
    assert Put(HistText(h.title)) == h.title;
    assert Put(HistText(h.description)) == h.description;
    assert Put(Get(h.archivedAt)) == h.archivedAt;
  }

  /** A document with its texts already encoded and no present "" text is not written by a later pass. */
  lemma EncodedDocumentSkipped(d: Doc)
    requires d.title.Present? ==> IsB64(d.title.value)
    requires d.description.Present? ==> IsB64(d.description.value)
    requires forall k :: 0 <= k < |Hist(d)| ==> !EntryChanged(Hist(d)[k])
    ensures !NeedsUpdate(d) && MigrateDoc(d) == d
  {
  }
}
