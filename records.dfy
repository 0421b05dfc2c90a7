/**
  The record shapes the handlers and repositories exchange: the note dictionary a
  repository returns (and the document store keeps), a history snapshot, and the
  response models of models/notes.py and models/auth_models.py.
 */
module Records {
  import opened Wrappers

  /** A timestamp, as an abstract clock reading passed in by the caller. */
  type Time = int

  /** `NoteSnapshot`: the live fields of a note as they were before one edit. */
  datatype Snapshot = Snapshot(title: string, description: string, archivedAt: Time)

  /**
    A note as a dictionary: `uniqueID`, `note_title`, `note_description`,
    `note_created`, `owner_key` (absent in the owner-less repository) and
    `note_history`, newest snapshot first.
   */
  datatype NoteDoc = NoteDoc(
    uniqueId: int,
    title: string,
    description: string,
    created: Time,
    owner: Option<string>,
    history: seq<Snapshot>)

  function UniqueIdOf(d: NoteDoc): int {
    d.uniqueId
  }

  /** `NoteOut`: the response model keeps the id, the texts, the creation time and the history. */
  datatype NoteOut = NoteOut(
    uniqueId: int,
    title: string,
    description: string,
    created: Time,
    history: seq<Snapshot>)

  /** What `NoteOut(**doc)` keeps of a note dictionary: everything but `owner_key`. */
  function ToOut(d: NoteDoc): NoteOut {
    NoteOut(d.uniqueId, d.title, d.description, d.created, d.history)
  }

  /** `[NoteOut(**d) for d in docs]`. */
  function Outs(docs: seq<NoteDoc>): (r: seq<NoteOut>)
    ensures |r| == |docs|
    ensures forall i :: 0 <= i < |r| ==> r[i] == ToOut(docs[i])
  {
    if docs == [] then [] else [ToOut(docs[0])] + Outs(docs[1..])
  }

  /** `UserOut`: the SQL row id (None for the document store) and the email. */
  datatype UserOut = UserOut(id: Option<int>, email: string)

  /** A handler's outcome: its response body, or the HTTP error it raises. */
  datatype Response<T> = Ok(value: T) | HttpError(status: int, detail: string)
}
