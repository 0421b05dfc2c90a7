/**
  The document store of databases/mongodb_connect.py: a `users` collection with a
  unique index on `email` (so, a map from email to password hash) and a `notes`
  collection with a unique index on `uniqueID`.
 */
module MongoStore {
  import opened Records
  import Keyed

  class MongoDb {
    /** `users`: email to hashed password. */
    var users: map<string, string>
    /** `notes`, in insertion order. */
    var notes: seq<NoteDoc>

    /** The unique index on `uniqueID` (databases/mongodb_connect.py:14). */
    ghost predicate Valid()
      reads this
    {
      Keyed.DistinctKeys(notes, UniqueIdOf)
    }

    constructor ()
      ensures Valid()
      ensures users == map[] && notes == []
    {
      users := map[];
      notes := [];
    }
  }
}
