/**
  The per-text rule both migration scripts share for the texts they test with
  truthiness first (`if t and not is_b64(t): t = b64e(t)`): every history text of
  Scripts/MigrateToBase64_mongo.py and both note texts of
  Scripts/MigrateToBase64_sql.py.
 */
module MigrationRule {
  import opened B64Text

  /** `t and not is_b64(t)`: a text the migrations encode. */
  predicate NeedsEncoding(t: string) {
    t != "" && !IsB64(t)
  }

  /**
    The text a migration stores: either the old text itself or an encoding that
    decodes back to it. Texts that already pass `is_b64` and the empty text are
    kept, every non-empty result passes `is_b64`, and the result never needs
    encoding again.
   */
  function Migrated(t: string): (r: string)
    ensures r == t || (NeedsEncoding(t) && r == B64e(t) && B64d(r) == t)
    ensures r == t <==> !NeedsEncoding(t)
    ensures IsB64(t) || t == "" ==> r == t
    ensures r == "" <==> t == ""
    ensures r == "" || IsB64(r)
    ensures !NeedsEncoding(r)
  {
    if NeedsEncoding(t) then
      RoundTrip(t);
      EncodedIsB64(t);
      EncodingIsLonger(t);
      B64e(t)
    else t
  }
}
