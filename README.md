# Versioned notes backend, modelled in Dafny

This project models the core of a small notes backend written in Python with
FastAPI. Users register and sign in. Each user keeps notes that have a numeric
`uniqueID`, a title, a description, a creation time and a history of earlier
versions. There are two interchangeable backends, a document store (MongoDB)
and a relational one (SQLAlchemy over SQLite). The model covers:

- **The text codec** of `utils_b64.py` (modules `Utf8`, `Base64`, `B64Text`).
  - `b64e` is the Base64 of section 4 of RFC 4648 applied to the UTF-8 octets
    of RFC 3629.
  - `b64d` undoes it and falls back to its input on any failure.
  - `is_b64` asks whether decoding and encoding again reproduces the input.
- **The two encoding migrations** (`MigrationRule`, `MigrateSql`,
  `MigrateMongo`). Each is a loop over the stored notes that rewrites the texts
  `is_b64` rejects and counts the notes it changed.
- **The note repositories** (`NotesRepository`, `OwnerlessNotesRepository`,
  `SqlNotesRepository`):
  - max-plus-one id allocation;
  - insertion;
  - the listing, filtered by owner and sorted ascending by id.
- **The HTTP handlers of `app.py`** for both backends (`MongoApp`, `SqlApp`),
  over the stores `MongoStore.MongoDb` and `SqlStore.SqlDb`. The handlers are
  register, login, create, list, edit (404 before 403, with history) and
  delete.
- **The upload admission rules** of `utils_media.py` (`Media`):
  - the MIME allow-list;
  - the extension whitelist taken from the path suffix;
  - the sub-directory choice;
  - the 5 MiB budget, checked chunk by chunk.

The code is modelled in the form it has in the source:
- Pure code becomes functions and lemmas.
- The migration loops, the repository inserts and the handlers become methods
  with loops and `modifies` clauses.
- The stores are classes whose fields those methods reassign.

Each loop method is proved equal to a specification function, and the
properties are proved about that function.

Shared pieces:
- `Keyed` holds the generic helpers: sorting and filtering by key, counting,
  max-plus-one keys, and lookup by key.
- `Records` holds the note dictionary and the response models.

Behaviours the model follows from the code:
- **Ids are reused.** Both stores hand out one more than the largest id in use.
  Deleting the newest note therefore frees its id for the next insert
  (`MongoApp.IdReusedAfterDeletingNewest`, and through the handlers
  `MongoApp.CreateDeleteCreate`). SQLite row ids without
  AUTOINCREMENT behave the same way.
- **SQL history rows outlive their note.** `delete_note` leaves them in place,
  because SQLite does not enforce the declared cascade.
- **The two migrations treat an empty text differently.** The document
  migration's top-level guard is `x is not None and not is_b64(x)`, and
  `is_b64("")` is False. So a document with a present empty title or
  description is written and counted again on every run, although nothing in
  it changes (`MigrateMongo.SecondPassRewritesEmptyTexts`).

## Model

| member | source | states |
|---|---|---|
| Utf8.EncodeChar | utils_b64.py:6 | a character takes one to four octets, and exactly one when it is ASCII (section 3 of RFC 3629) |
| Utf8.Encode | utils_b64.py:6 | a text encodes to at least as many octets as it has characters, and to none exactly when it is empty |
| Utf8.DecodeFirst | utils_b64.py:12 | a well-formed first character takes between one octet and all of them |
| Utf8.DecodeFirstOfEncodeChar | utils_b64.py:6-12 | the decoder reads back, from the front of any octets, the character whose encoding they start with, and its length |
| Utf8.EncodeCharOfDecodeFirst | utils_b64.py:12 | whatever the strict decoder reads from the front re-encodes to exactly the octets it consumed |
| Utf8.DecodeEncode | utils_b64.py:6-12 | decoding the UTF-8 of any text gives the text back |
| Utf8.Decode | utils_b64.py:12 | strict `.decode("utf-8")`: octets that decode are exactly the encoding of the text they decode to, which has no more characters than there are octets |
| Base64.ValueOf | utils_b64.py:12 | a character has a six-bit value only if it is ASCII, and then the alphabet writes that value as that character |
| Base64.EncodeGroup | utils_b64.py:6 | one to three octets become four characters: letters, then `=` padding for each missing octet |
| Base64.Encode | utils_b64.py:6 | the text has length 4·⌈n/3⌉ and holds only alphabet characters and `=`, all ASCII |
| Base64.DecodeGroup | utils_b64.py:12 | a decodable group of four characters gives one to three octets |
| Base64.Decode | utils_b64.py:12 | `b64decode`, strict: text that decodes holds only alphabet characters and `=`, and its length is 4·⌈n/3⌉ for the n octets it gives |
| Base64.DecodeEncodeGroup | utils_b64.py:6-12 | each group decodes back to the octets it was encoded from |
| Base64.DecodeEncode | utils_b64.py:6-12 | decoding the Base64 text of any octets gives those octets back |
| B64Text.B64e | utils_b64.py:3-6 | the result is ASCII, has length 4·⌈n/3⌉ for n UTF-8 octets, holds only alphabet characters and `=`, and is empty exactly for the empty text (or None) |
| B64Text.B64d | utils_b64.py:8-14 | "" (or None) gives ""; any other result is either the input itself or text whose UTF-8 the input is the Base64 of |
| B64Text.DecodesWhenValid | utils_b64.py:8-12 | ASCII text that is Base64 of the UTF-8 of some text decodes to that text, canonical encoding or not |
| B64Text.RoundTrip | utils_b64.py:3-12 | `b64d(b64e(t)) == t` for every text, the empty one included |
| B64Text.EncodedIsB64 | utils_b64.py:16-20 | `is_b64(b64e(t))` holds for every non-empty text |
| B64Text.FallsBack | utils_b64.py:11-14 | non-ASCII input, input that is not Base64, and Base64 of invalid UTF-8 all come back unchanged |
| B64Text.EncodingIsLonger | utils_b64.py:6 | an encoding is strictly longer than the text it encodes |
| B64Text.IsB64 | utils_b64.py:16-22 | `is_b64`: a text that passes is non-empty ASCII that genuinely decodes as Base64, and `b64d` changes it |
| B64Text.IsB64Exactly | utils_b64.py:16-22 | `is_b64(x)` holds iff x is the encoding of some non-empty text; then `b64d(x)` took no fallback and differs from x |
| B64Text.NonCanonicalPaddingRejected | utils_b64.py:12-20 | "QR==" decodes to "A", yet `is_b64("QR==")` is False |
| B64Text.PlainWordAccepted | utils_b64.py:16-20 | the plain word "Blog" passes `is_b64`, since it decodes to "\x06Z " |
| MigrationRule.Migrated | Scripts/MigrateToBase64_sql.py:14-17 | a text is kept iff it is empty or passes `is_b64`; otherwise it becomes its encoding, which decodes back to it; the result is empty or passes `is_b64` and never needs encoding again |
| MigrateSql.RewriteRow | Scripts/MigrateToBase64_sql.py:13-17 | the per-row rewrite: both texts through `Migrated`, every other column kept; its properties are the contract of `RewriteRowMeaning` |
| MigrateSql.RewriteRowMeaning | Scripts/MigrateToBase64_sql.py:12-17 | a rewritten row keeps id, creation time and owner; its texts are migrated; it differs from the old row iff the row needed an update; it needs no further update |
| MigrateSql.RewriteOne | Scripts/MigrateToBase64_sql.py:13-17 | the loop body yields the rewritten row, and `upd` is set iff one of the texts needed encoding |
| MigrateSql.Migrate | Scripts/MigrateToBase64_sql.py:8-20 | every row is replaced in place by its rewrite, the table keeps its size and the table invariants hold; `changed` is the number of rows that needed an update |
| MigrateSql.SecondRunChangesNothing | Scripts/MigrateToBase64_sql.py:14-19 | after a pass, a second pass counts 0 and rewrites every row to itself |
| MigrateMongo.RewriteEntryMeaning | Scripts/MigrateToBase64_mongo.py:26-32 | a history entry keeps only its two texts and `archived_at`; an absent text is stored as "", a null one stays null, and a present one is migrated; the entry ends up encoded |
| MigrateMongo.RewriteEntryStep | Scripts/MigrateToBase64_mongo.py:26-32 | the inner loop body yields the rewritten entry, and `ch` is set iff one of its texts needed encoding |
| MigrateMongo.RewriteEntries | Scripts/MigrateToBase64_mongo.py:23-32 | `new_hist` has the length of the history and holds the rewrite of each entry, in order |
| MigrateMongo.RewriteHistory | Scripts/MigrateToBase64_mongo.py:22-34 | the history loop builds `new_hist` by appending the rewritten entries, and `hist_changed` is set iff some entry needed encoding |
| MigrateMongo.TopMigratedMeaning | Scripts/MigrateToBase64_mongo.py:14-20 | None stays None; a text passing `is_b64` is kept; any other present text, "" included, becomes its encoding, which decodes back to it |
| MigrateMongo.MigrateDoc | Scripts/MigrateToBase64_mongo.py:12-42 | the per-document rewrite keeps `_id` and every field the script neither reads nor writes (the rest in `MigrateDocMeaning`) |
| MigrateMongo.MigrateDocMeaning | Scripts/MigrateToBase64_mongo.py:12-42 | only the two texts and the history change; an unwritten document is unchanged; every present non-empty text, top level and history, ends up passing `is_b64` |
| MigrateMongo.MigrateOne | Scripts/MigrateToBase64_mongo.py:13-41 | the loop body yields the document `update_one` stores, and `needs_update` is set iff a top-level text or a history entry was encoded |
| MigrateMongo.Migrate | Scripts/MigrateToBase64_mongo.py:8-43 | every document becomes its migrated form, in place; `count` is the number of documents written |
| MigrateMongo.SecondPassRewritesEmptyTexts | Scripts/MigrateToBase64_mongo.py:17-20 | a second pass changes nothing, yet it writes a document again iff that document has a present "" title or description |
| MigrateMongo.TopAfterPass | Scripts/MigrateToBase64_mongo.py:17-20 | after a pass, a top-level text needs encoding again iff it was a present "" |
| MigrateMongo.TopWrittenAgain | Scripts/MigrateToBase64_mongo.py:17-41 | writing back a top-level text that is null, "" or encoded stores the same field again |
| MigrateMongo.EntryRewriteStable | Scripts/MigrateToBase64_mongo.py:24-32 | an entry with nothing to encode, holding exactly the three written fields, is rewritten to itself |
| MigrateMongo.EncodedDocumentSkipped | Scripts/MigrateToBase64_mongo.py:13-36 | a document whose present texts pass `is_b64` and whose history needs nothing is not written |
| Keyed.SortBy | repositories/notes_repository.py:30 | the result is sorted ascending by key and is a permutation of the input |
| Keyed.Filter | repositories/notes_repository.py:30 | the result holds each element satisfying the test as often as the input does, and nothing else |
| Keyed.Count | Scripts/MigrateToBase64_sql.py:18-19 | the count is at most the length, and is 0 iff no element satisfies the test |
| Keyed.NextKey | repositories/notes_repository.py:13-15 | 1 for an empty collection; otherwise above every key and equal to the largest key plus one |
| Keyed.NextKeyAfterAppend | repositories/notes_repository.py:13-15 | after inserting under the allocated key, the next key is one higher |
| Keyed.AppendKeepsKeysDistinct | repositories/notes_repository.py:13-26 | inserting under the allocated key keeps keys unique |
| Keyed.IndexOfKey | app.py:136 | a lookup finds the first element with the key, or None iff no element has it |
| NotesRepository.NextUniqueId | repositories/notes_repository.py:13-15 | `_next_unique_id` is 1 on an empty collection, else one more than the largest `uniqueID` of any owner |
| NotesRepository.AddNote | repositories/notes_repository.py:17-27 | exactly one document is appended, with the fresh id, the owner, the texts and an empty history, and it is returned; ids stay unique |
| NotesRepository.SequentialIdsIncrease | repositories/notes_repository.py:13-19 | sequential inserts receive strictly increasing ids, each one above the previous |
| NotesRepository.GetAllNotes | repositories/notes_repository.py:29-31 | exactly the owner's notes, each as often as stored, sorted ascending by `uniqueID` |
| OwnerlessNotesRepository.AddNote | repo/notes_repository.py:16-34 | one document is appended, with the max-plus-one id, the texts, an empty history and no owner; ids stay unique |
| OwnerlessNotesRepository.GetAllNotes | repo/notes_repository.py:36-38 | every note, with no owner filter, sorted ascending by `uniqueID` |
| Records.Outs | app.py:131 | one response model per dictionary, in order, each dropping `owner_key` |
| MongoApp.Register | app.py:106-111 | a taken email gives 409 and leaves the users unchanged; otherwise exactly that user is added |
| MongoApp.Login | app.py:113-119 | success, with the email as subject, iff the user exists and the password verifies; 401 "Invalid credentials" otherwise |
| MongoApp.CreateNote | app.py:122-127 | an unknown email gives 401 "User not found" and creates nothing; otherwise exactly one note is added, and its model is returned |
| MongoApp.ListNotes | app.py:129-131 | sorted by id; holds the model of every note of the user and nothing else; it is the models of `get_all_notes`, so each note appears as often as it is stored |
| MongoApp.EditDoc | app.py:142-153 | an edited note keeps its id, creation time and owner, carries the new texts, and its history is one snapshot longer: the previous texts stamped with the edit time, in front of the old history |
| MongoApp.EditNote | app.py:133-157 | 404 when no note has the id, before 403 for another owner's note; otherwise only that note changes: the old texts are pushed at position 0 of the history, and the new texts are set |
| MongoApp.DeleteNote | app.py:159-167 | 404, then 403, as for edit; otherwise exactly that note is removed |
| MongoApp.CreateDeleteCreate | app.py:122-167 | `create_note`, `delete_note` of that note by its owner, then `create_note` all succeed, the second note gets the first one's id, and only it remains added |
| MongoApp.DeleteRemovesOnlyThatNote | app.py:166 | deleting keeps every note with another id, and ids stay unique |
| MongoApp.IdReusedAfterDeletingNewest | repositories/notes_repository.py:13-15 | after the newest note is deleted, the next insert receives the same id again |
| MongoApp.HistoryGrowsByOnePerEdit | app.py:142-155 | after N edits the history has N more entries, newest first, each holding the texts before that edit; id, creation time and owner never change |
| MongoApp.EditsKeepNewestFirst | app.py:145-151 | with a clock that never goes back, the history stays ordered newest first |
| SqlStore.FindUser | app.py:33 | the user found has that email, and None means no user has it |
| SqlStore.SameKeysKeepValid | Scripts/MigrateToBase64_sql.py:12-17 | rewriting note rows in place while keeping ids and owners keeps the table invariants |
| SqlStore.SqlDb.constructor | models/sql_models.py:5-29 | the three tables start empty and valid |
| MongoStore.MongoDb.constructor | databases/mongodb_connect.py:14-15 | both collections start empty, and the unique index holds |
| SqlNotesRepository.AddNote | repositories/sql_notes_repositories.py:6-19 | the owner must exist; exactly one row is inserted, under a fresh key distinct from every old id and owned by that user; the dictionary returned has the email as owner and an empty history |
| SqlNotesRepository.RowDocs | repositories/sql_notes_repositories.py:26-35 | one dictionary per row, in order |
| SqlNotesRepository.ListingIsSortedAndBare | repositories/sql_notes_repositories.py:21-36 | an unknown email gives []; otherwise ascending by id, each entry owned by the email and with an empty history |
| SqlNotesRepository.ListingIsExactlyOwnersRows | repositories/sql_notes_repositories.py:25-35 | for a known email, the listing is one dictionary per entry of a selection that holds each of the user's rows exactly as often as the table does, and none of anyone else's; so it has a dictionary for every one of that user's rows and for nothing else |
| SqlNotesRepository.DocsOf | repositories/sql_notes_repositories.py:26-35 | the append loop yields one dictionary per row, in order |
| SqlNotesRepository.GetAllNotes | repositories/sql_notes_repositories.py:21-36 | the method's answer is the listing the lemmas above describe |
| SqlApp.Register | app.py:31-36 | a taken email gives 409 and no change; otherwise one `users` row under the fresh key, with its id returned; the invariants are kept |
| SqlApp.Login | app.py:38-44 | success iff a user has that email and the password verifies; 401 "Invalid credentials" otherwise |
| SqlApp.CreateNote | app.py:47-54 | an unknown email gives 401 "User not found" and no row; otherwise one row under the fresh key, owned by that user |
| SqlApp.ListNotes | app.py:56-58 | the models of the listing, every one with an empty history |
| SqlApp.EditNote | app.py:60-85 | 404 before 403; otherwise one `note_history` row with the old texts is appended, only that note's texts change, and the response has an empty history |
| SqlApp.DeleteNote | app.py:87-96 | 404 before 403; otherwise exactly that row is deleted, and `note_history` is left as it was |
| Media.Lower | utils_media.py:22 | lowering keeps the length and maps each character on its own: ASCII capitals and the Kelvin sign to lower case, everything else unchanged |
| Media.RFind | utils_media.py:18 | the last position of the character, or None iff it does not occur |
| Media.Name | utils_media.py:18 | the name contains no "/" and is never "."; a path without "/" other than "." is its own name |
| Media.NameIsLastComponent | utils_media.py:18 | a non-empty name is a whole "/"-delimited component of the path followed only by empty or "." components; an empty name means the path has only such components |
| Media.Suffix | utils_media.py:18 | the suffix is "" or a dot followed by at least one other character; it contains no other dot, ends the name, and is not the whole name; "" means the last dot, if any, is the first or last character |
| Media.SafeExt | utils_media.py:17-19 | the extension is "" or one of the eight whitelisted ones |
| Media.SafeExtOfPlainName | utils_media.py:17-19 | for any file name `stem + ext` without "/", with `stem` non-empty and the last dot starting `ext`, `safe_ext` is `ext` lowered when that is whitelisted, else "" |
| Media.SafeExtLowers | utils_media.py:17-19 | "photo.JPG" gets the extension ".jpg" |
| Media.GuessSubdir | utils_media.py:14-15 | "images" iff the type starts with "image/", else "videos" |
| Media.AllowedTypesSubdirs | utils_media.py:5-8 | the four image types go to "images", the three video types to "videos" |
| Media.StoredName | utils_media.py:26-29 | the stored name starts with the random id, and the remainder is "" or a whitelisted extension |
| Media.Received | utils_media.py:35-38 | the chunks read are a prefix of the stream, none of them empty, and reading stops at the first empty one |
| Media.TotalOfPrefix | utils_media.py:39 | a prefix of the chunks never carries more bytes than the whole |
| Media.ReadBody | utils_media.py:32-45 | "too large" iff the bytes before the first empty read exceed 5 MiB; otherwise the total is their sum |
| Media.Upload | utils_media.py:21-58 | the outcome: metadata xor a message; metadata has an allowed type, a size within `MAX_BYTES`, and the URL `/uploads/<subdir for the type>/<stored name>`; an allowed type within `MAX_BYTES` is accepted with the lowered type and the byte total as its size; `original_name` is the client's file name, or the stored name (the bare hex id) when there is none |
| Media.SaveUpload | utils_media.py:21-58 | the outcome is `Upload`: a type check, then the size check, then the metadata |
| Media.UploadRejections | utils_media.py:22-57 | metadata xor a message; a type is refused with its lowered name iff it is outside the allow-list; an allowed type is refused for size iff the bytes exceed `MAX_BYTES`, and accepted otherwise, so exactly 5 MiB is accepted |
| Media.UploadAccepted | utils_media.py:51-57 | an accepted upload has an allowed type and records a size of at most `MAX_BYTES` |
| Media.CapitalTypeAdmitted | utils_media.py:22-23 | "IMAGE/PNG" is admitted as "image/png" |
| Media.KelvinSignTypeAdmitted | utils_media.py:22-23 | a type spelt with the Kelvin sign is admitted, because it lowers to "video/quicktime" |

## Left out

- JWT signing and bcrypt hashing (`auth.py`, `utils.py`) are not modelled. The
  handlers take the token's email, the hash, and a password check as
  parameters.
- `EmailStr` validation is not modelled, since it belongs to a library. The
  pydantic length limits (title, description, password) are preconditions of
  the handlers.
- Clocks (`datetime.now`), `uuid4` and the file system are parameters:
  - a `Time` value;
  - the hex id;
  - the sequence of chunk lengths that the reads return.

  Writing, closing and removing the file are not modelled.
- `save_upload`'s "write error" path is not modelled: it is an exception from
  the file system.
- `_serialize` and Mongo's `_id` are not modelled. A note dictionary has no
  `_id` field, so removing it is the identity.
- B64Text.B64d: `Base64.Decode` is strict, but `base64.b64decode` in its
  default non-validating mode is lenient in three ways. It skips characters
  outside the alphabet. It skips an `=` that cannot start padding. It stops at
  the first complete padding and ignores the rest. So the program's
  `b64d("QQ==QQ==")` and `b64d("=QQ==")` both give "A", while the model returns
  each input unchanged. The contracts of `B64Text.B64d` and `B64Text.FallsBack`
  therefore hold of the strict decoder only. `is_b64` is unaffected. It is True
  only when the input is `b64e` of some text, which is canonical Base64, and on
  canonical Base64 the two decoders agree.
- UTF-8 encoding of lone surrogates is not modelled. Python's `encode` raises
  on them; Dafny's `char` cannot hold them.
- Media.Lower: only ASCII capitals and the Kelvin sign are lowered. No other
  Unicode case mapping of `str.lower` is modelled. Those mappings can change
  only the text of the "unsupported content-type" message, never admission.
- MigrateMongo.Migrate: a `note_history` field that is present but null makes
  the script raise. It is modelled as an absent history.
- Concurrency is not modelled: neither the non-atomic max-plus-one allocation
  nor the read-then-update race in `edit_note`. Every operation runs alone.
- The SQL `ondelete="CASCADE"` is not modelled: SQLite does not enforce it
  unless foreign keys are switched on.
- `repo/sql_notes_repositories.py` is not part of this model. It inserts notes
  without the required `owner_id` and reads a relationship `Note` does not
  declare.
- The import wiring of `app.py` (lines 18 and 21 name modules under other file
  names) and the `DB_BACKEND` switch are not modelled. Each branch is its own
  module.
- The routes never call `b64e`, `b64d` or `save_upload`. The handlers
  therefore store plain text, and the codec and upload rules are modelled as
  library functions.
- The user-lookup wrappers (`repositories/users_repository.py`,
  `repositories/sql_users_repository.py`) are folded into the stores: a map
  keyed by email, and the `FindUser` query.
