/**
  utils_media.py: the admission rules of an upload. The content type is checked
  against an allow-list, the stored name is a random hex id plus a whitelisted
  extension taken from the client's file name, the sub-directory follows the type,
  and the body is read chunk by chunk against a 5 MiB budget. The file system and
  the random id are outside the model: the id is a parameter and the body is the
  sequence of chunk lengths the reads return.
 */
module Media {
  import opened Wrappers

  /** `ALLOWED_MIME`. */
  const AllowedMime: set<string> := {
    "image/jpeg", "image/png", "image/gif", "image/webp",
    "video/mp4", "video/webm", "video/quicktime"
  }

  /** `MAX_BYTES`: 5 MiB. */
  const MaxBytes: nat := 5 * 1024 * 1024

  /** The extensions `safe_ext` lets through. */
  const AllowedExt: set<string> := {".jpg", ".jpeg", ".png", ".gif", ".webp", ".mp4", ".webm", ".mov"}

  // ---------- strings ----------

  /**
    `str.lower` on one character, as far as admission can tell: ASCII capitals, and
    the Kelvin sign, which lowers to the ASCII 'k'. Every other character is kept.
   */
  function LowerChar(c: char): char {
    if 'A' <= c <= 'Z' then (c as int + 32) as char
    else if c == '\U{212A}' then 'k'
    else c
  }

  /** `s.lower()`, character by character. */
  function Lower(s: string): (r: string)
    ensures |r| == |s|
    ensures forall i :: 0 <= i < |s| ==> r[i] == LowerChar(s[i])
  {
    seq(|s|, i requires 0 <= i < |s| => LowerChar(s[i]))
  }

  /** `s.startswith(p)`. */
  predicate StartsWith(s: string, p: string) {
    |p| <= |s| && s[..|p|] == p
  }

  /** `s.rfind(c)`: the last position of `c`, or None. */
  function RFind(s: string, c: char): (r: Option<nat>)
    ensures r.Some? ==> r.value < |s| && s[r.value] == c && c !in s[r.value + 1..]
    ensures r.None? ==> c !in s
  {
    if s == [] then None
    else if s[|s| - 1] == c then Some(|s| - 1)
    else
      var r := RFind(s[..|s| - 1], c);
      assert r.Some? ==> s[r.value + 1..] == s[..|s| - 1][r.value + 1..] + [s[|s| - 1]];
      assert s == s[..|s| - 1] + [s[|s| - 1]];
      r
  }

  /** `pathlib.Path(p).name`: the last component, skipping empty and "." components. */
  function Name(p: string): (r: string)
    ensures '/' !in r && r != "."
    ensures |r| <= |p|
    ensures '/' !in p && p != "." ==> r == p
    decreases |p|
  {
    var slash := RFind(p, '/');
    var last := if slash.Some? then p[slash.value + 1..] else p;
    if last != "" && last != "." then last
    else if slash.Some? then Name(p[..slash.value])
    else ""
  }

  /** `s` is a run of "/"-separated components that are each empty or ".". */
  predicate OnlyEmptyComponents(s: string) {
    forall j :: 0 <= j < |s| ==>
      s[j] == '/' || (s[j] == '.' && (j == 0 || s[j - 1] == '/') && (j == |s| - 1 || s[j + 1] == '/'))
  }

  /** Appending "/" and an empty or "." component keeps a run of such components. */
  lemma AppendEmptyComponent(s: string, last: string)
    requires OnlyEmptyComponents(s)
    requires last == "" || last == "."
    ensures OnlyEmptyComponents(s + "/" + last)
  {
    var t := s + "/" + last;
    forall j | 0 <= j < |t| && t[j] != '/'
      ensures t[j] == '.' && (j == 0 || t[j - 1] == '/') && (j == |t| - 1 || t[j + 1] == '/')
    {
      if j < |s| {
        assert t[j] == s[j] && s[j] != '/';
        assert s[j] == '.' && (j == 0 || s[j - 1] == '/') && (j == |s| - 1 || s[j + 1] == '/');
        assert j > 0 ==> t[j - 1] == s[j - 1];
        assert j < |s| - 1 ==> t[j + 1] == s[j + 1];
        assert j == |s| - 1 ==> t[j + 1] == '/';
      } else {
        assert j == |s| + 1 && last == "." && t[j - 1] == '/';
      }
    }
  }

  /**
    `r` is a whole "/"-delimited component of `p` starting at `i`, followed only by
    empty or "." components.
   */
  predicate LastComponentAt(p: string, r: string, i: int) {
    && 0 <= i && i + |r| <= |p| && p[i..i + |r|] == r
    && (i == 0 || p[i - 1] == '/')
    && (i + |r| == |p| || p[i + |r|] == '/')
    && OnlyEmptyComponents(p[i + |r|..])
  }

  /** A last component stays the last one when "/" and an empty or "." component follow. */
  lemma ExtendLastComponent(q: string, last: string, r: string, i: int)
    requires LastComponentAt(q, r, i)
    requires last == "" || last == "."
    ensures LastComponentAt(q + "/" + last, r, i)
  {
    var p := q + "/" + last;
    AppendEmptyComponent(q[i + |r|..], last);
    assert p[i + |r|..] == q[i + |r|..] + "/" + last;
    assert p[i..i + |r|] == q[i..i + |r|];
    assert i + |r| == |q| ==> p[i + |r|] == '/';
    assert i + |r| < |q| ==> p[i + |r|] == q[i + |r|];
    assert i > 0 ==> p[i - 1] == q[i - 1];
  }

  /** A path splits around any of its slashes. */
  lemma SplitAtSlash(p: string, k: nat)
    requires k < |p| && p[k] == '/'
    ensures p == p[..k] + "/" + p[k + 1..]
  {
    assert p == p[..k] + p[k..];
    assert p[k..] == [p[k]] + p[k + 1..];
  }

  /**
    The name is the last component of the path that is neither empty nor ".": a
    non-empty name occupies a whole "/"-delimited component of `p`, and only empty
    or "." components follow it; an empty name means `p` has no other component.
   */
  lemma {:induction false} NameIsLastComponent(p: string)
    ensures Name(p) != "" ==> exists i :: LastComponentAt(p, Name(p), i)
    ensures Name(p) == "" ==> OnlyEmptyComponents(p)
    decreases |p|
  {
    var r := Name(p);
    var slash := RFind(p, '/');
    var last := if slash.Some? then p[slash.value + 1..] else p;
    if last != "" && last != "." {
      var i := if slash.Some? then slash.value + 1 else 0;
      assert r == last && p[i..] == r;
      assert p[i..i + |r|] == r && p[i + |r|..] == [];
      assert LastComponentAt(p, r, i);
    } else if slash.Some? {
      var q := p[..slash.value];
      assert r == Name(q);
      NameIsLastComponent(q);
      SplitAtSlash(p, slash.value);
      if r != "" {
        var i :| LastComponentAt(q, r, i);
        ExtendLastComponent(q, last, r, i);
      } else {
        AppendEmptyComponent(q, last);
      }
    } else {
      assert p == last;
    }
  }

  /** `PurePath.suffix`: from the last dot, when that dot is neither the first nor the last character. */
  function Suffix(name: string): (r: string)
    ensures r == "" || (2 <= |r| < |name| && r[0] == '.' && '.' !in r[1..] && r == name[|name| - |r|..])
    ensures r == "" ==> forall i :: 0 < i < |name| - 1 && name[i] == '.' ==> '.' in name[i + 1..]
  {
    match RFind(name, '.')
    case Some(i) =>
      if 0 < i < |name| - 1 then name[i..]
      else
        assert forall j :: 0 < j < |name| - 1 && name[j] == '.' && j != i ==> j < i && name[i] in name[j + 1..];
        ""
    case None => ""
  }

  /**
    `safe_ext`: the lowered suffix of the file name when it is one of the eight
    allowed extensions, "" otherwise.
   */
  function SafeExt(filename: string): (r: string)
    ensures r == "" || r in AllowedExt
  {
    var ext := Lower(Suffix(Name(filename)));
    if ext in AllowedExt then ext else ""
  }

  /** `guess_subdir`. */
  function GuessSubdir(mime: string): (r: string)
    ensures r == "images" || r == "videos"
    ensures r == "images" <==> StartsWith(mime, "image/")
  {
    if StartsWith(mime, "image/") then "images" else "videos"
  }

  /** The stored file name: the random id followed by the safe extension, which is empty or allowed. */
  function StoredName(uuidHex: string, filename: string): (r: string)
    ensures |uuidHex| <= |r| && r[..|uuidHex|] == uuidHex
    ensures r[|uuidHex|..] == "" || r[|uuidHex|..] in AllowedExt
  {
    var ext := SafeExt(filename);
    assert (uuidHex + ext)[|uuidHex|..] == ext;
    uuidHex + ext
  }

  /** The four allowed image types go to "images", the three video types to "videos". */
  lemma AllowedTypesSubdirs()
    ensures forall m :: m in AllowedMime ==>
      GuessSubdir(m) == if m in {"image/jpeg", "image/png", "image/gif", "image/webp"} then "images" else "videos"
  {
    assert StartsWith("image/jpeg", "image/") && StartsWith("image/png", "image/");
    assert StartsWith("image/gif", "image/") && StartsWith("image/webp", "image/");
    assert "video/mp4"[0] == "video/webm"[0] == "video/quicktime"[0] == 'v' != "image/"[0];
  }

  // ---------- reading the body ----------

  /** The chunk lengths read before the first empty read (reading past the end is empty). */
  function Received(chunks: seq<nat>): (r: seq<nat>)
    ensures |r| <= |chunks| && r == chunks[..|r|]
    ensures forall k :: 0 <= k < |r| ==> r[k] != 0
    ensures |r| < |chunks| ==> chunks[|r|] == 0
  {
    if chunks == [] || chunks[0] == 0 then []
    else [chunks[0]] + Received(chunks[1..])
  }

  /** The sum of the chunk lengths. */
  function Total(s: seq<nat>): nat {
    if s == [] then 0 else Total(s[..|s| - 1]) + s[|s| - 1]
  }

  /** A prefix never carries more bytes than the whole. */
  lemma {:induction false} TotalOfPrefix(s: seq<nat>, i: nat)
    requires i <= |s|
    ensures Total(s[..i]) <= Total(s)
    decreases |s|
  {
    if i < |s| {
      TotalOfPrefix(s[..|s| - 1], i);
      assert s[..|s| - 1][..i] == s[..i];
    } else {
      assert s[..i] == s;
    }
  }

  // ---------- save_upload ----------

  /** The metadata dictionary of a stored upload. */
  datatype MediaRef = MediaRef(url: string, mimeType: string, sizeBytes: nat, originalName: string)

  /** `x or ""` for an optional text. */
  function OrEmpty(s: Option<string>): string {
    if s.Some? then s.value else ""
  }

  /**
    What `save_upload` returns: a rejection for a type outside the allow-list, a
    rejection when the bytes before the first empty read exceed the budget, and
    otherwise the metadata of the stored file.
   */
  function Upload(contentType: Option<string>, filename: Option<string>, uuidHex: string, chunks: seq<nat>)
    : (r: (Option<MediaRef>, Option<string>))
    ensures r.0.Some? <==> r.1.None?
    ensures r.0.Some? ==> r.0.value.mimeType in AllowedMime && r.0.value.sizeBytes <= MaxBytes
    ensures r.0.Some? ==>
      r.0.value.url == "/uploads/" + GuessSubdir(r.0.value.mimeType) + "/" + StoredName(uuidHex, OrEmpty(filename))
    ensures r.0.Some? ==>
      r.0.value.originalName == if OrEmpty(filename) == "" then uuidHex else OrEmpty(filename)
    ensures Lower(OrEmpty(contentType)) in AllowedMime && Total(Received(chunks)) <= MaxBytes ==>
      r.0.Some? && r.0.value.mimeType == Lower(OrEmpty(contentType)) && r.0.value.sizeBytes == Total(Received(chunks))
  {
    var mime := Lower(OrEmpty(contentType));
    if mime !in AllowedMime then (None, Some("unsupported content-type: " + mime))
    else if Total(Received(chunks)) > MaxBytes then (None, Some("file too large (>5MB)"))
    else
      var fname := StoredName(uuidHex, OrEmpty(filename));
      assert OrEmpty(filename) == "" ==> fname == uuidHex by {
        assert Suffix(Name("")) == "";
        assert Lower("") == "";
      }
      var name := if OrEmpty(filename) == "" then fname else OrEmpty(filename);
      (Some(MediaRef("/uploads/" + GuessSubdir(mime) + "/" + fname, mime, Total(Received(chunks)), name)), None)
  }

  /**
    The read loop of `save_upload`: adds up chunk lengths until an empty read, and
    stops as soon as the running total passes `MaxBytes`. It reports "too large"
    exactly when the bytes before the first empty read exceed the budget, and
    otherwise returns their total.
   */
  method ReadBody(chunks: seq<nat>) returns (total: nat, tooLarge: bool)
    ensures tooLarge <==> Total(Received(chunks)) > MaxBytes
    ensures !tooLarge ==> total == Total(Received(chunks))
  {
    ghost var body := Received(chunks);
    total := 0;
    var i := 0;
    while i < |chunks| && chunks[i] != 0
      invariant i <= |body| <= |chunks|
      invariant total == Total(chunks[..i])
      invariant total <= MaxBytes
    {
      total := total + chunks[i];
      assert chunks[..i + 1][..i] == chunks[..i];
      if total > MaxBytes {
        TotalOfPrefix(body, i + 1);
        assert body[..i + 1] == chunks[..i + 1];
        return total, true;
      }
      i := i + 1;
    }
    assert chunks[..i] == body;
    tooLarge := false;
  }

  /**
    `save_upload`: checks the type, derives the stored name and sub-directory, then
    reads the body; the outcome is `Upload`.
   */
  method SaveUpload(contentType: Option<string>, filename: Option<string>, uuidHex: string, chunks: seq<nat>)
    returns (meta: Option<MediaRef>, err: Option<string>)
    ensures (meta, err) == Upload(contentType, filename, uuidHex, chunks)
  {
    var mime := Lower(OrEmpty(contentType));
    if mime !in AllowedMime {
      return None, Some("unsupported content-type: " + mime);
    }
    var sub := GuessSubdir(mime);
    var fname := StoredName(uuidHex, OrEmpty(filename));
    var total, tooLarge := ReadBody(chunks);
    if tooLarge {
      return None, Some("file too large (>5MB)");
    }
    var name := if OrEmpty(filename) == "" then fname else OrEmpty(filename);
    meta := Some(MediaRef("/uploads/" + sub + "/" + fname, mime, total, name));
    err := None;
  }

  /**
    Every outcome is either metadata or a message, never both. A type is refused
    exactly when its lowered form is outside the allow-list, an allowed upload is
    refused for size exactly when the bytes read exceed the budget, and an allowed
    upload within the budget is accepted, so exactly `MaxBytes` bytes are accepted.
   */
  lemma UploadRejections(contentType: Option<string>, filename: Option<string>, uuidHex: string, chunks: seq<nat>)
    ensures var (meta, err) := Upload(contentType, filename, uuidHex, chunks);
      var mime := Lower(OrEmpty(contentType));
      && (meta.Some? <==> err.None?)
      && (mime !in AllowedMime ==> err == Some("unsupported content-type: " + mime))
      && (mime !in AllowedMime <==> err == Some("unsupported content-type: " + mime))
      && (mime in AllowedMime ==> (err == Some("file too large (>5MB)") <==> Total(Received(chunks)) > MaxBytes))
      && (mime in AllowedMime && Total(Received(chunks)) <= MaxBytes ==> meta.Some?)
  {
    var mime := Lower(OrEmpty(contentType));
    if mime in AllowedMime {
      assert "unsupported content-type: " + mime != "file too large (>5MB)" by {
        assert ("unsupported content-type: " + mime)[0] == 'u';
      }
    }
  }

  /** An accepted upload has an allowed type and records a size within the budget. */
  lemma UploadAccepted(contentType: Option<string>, filename: Option<string>, uuidHex: string, chunks: seq<nat>)
    requires Upload(contentType, filename, uuidHex, chunks).0.Some?
    ensures var m := Upload(contentType, filename, uuidHex, chunks).0.value;
      var mime := Lower(OrEmpty(contentType));
      && mime in AllowedMime
      && m.mimeType == mime
      && m.sizeBytes == Total(Received(chunks)) <= MaxBytes
  {
  }

  /** A type written with capitals is admitted under its lowered name. */
  lemma CapitalTypeAdmitted()
    ensures Lower("IMAGE/PNG") == "image/png" && "image/png" in AllowedMime
  {
    var a := Lower("IMAGE/PNG");
    assert forall i :: 0 <= i < 9 ==> a[i] == "image/png"[i];
  }

  /** The Kelvin sign lowers to 'k', so a type spelt with it is admitted. */
  lemma KelvinSignTypeAdmitted()
    ensures Lower("video/quic\U{212A}time") == "video/quicktime"
    ensures "video/quicktime" in AllowedMime
  {
    var b := Lower("video/quic\U{212A}time");
    assert forall i :: 0 <= i < 15 ==> b[i] == "video/quicktime"[i];
  }

  /**
    For a plain file name with one final extension, `safe_ext` gives that extension
    lowered when it is whitelisted, and "" otherwise.
   */
  lemma SafeExtOfPlainName(stem: string, ext: string)
    requires '/' !in stem + ext && stem != ""
    requires |ext| >= 2 && ext[0] == '.' && '.' !in ext[1..]
    ensures SafeExt(stem + ext) == if Lower(ext) in AllowedExt then Lower(ext) else ""
  {
    var p := stem + ext;
    assert p != "." by { assert |p| >= 3; }
    assert Name(p) == p;
    var r := Suffix(p);
    assert p[|stem|] == '.';
    assert p[|stem| + 1..] == ext[1..];
    assert r == p[|stem|..] == ext;
  }

  /** `safe_ext` lowers the suffix: "photo.JPG" is stored with ".jpg". */
  lemma SafeExtLowers()
    ensures SafeExt("photo.JPG") == ".jpg"
  {
    var p := "photo.JPG";
    assert forall i :: 0 <= i < |p| ==> p[i] != '/';
    assert RFind(p, '/') == None;
    assert Name(p) == p;
    assert p[5] == '.' && forall i :: 6 <= i < |p| ==> p[i] != '.';
    assert RFind(p, '.') == Some(5);
    assert Suffix(p) == ".JPG";
    var e := Lower(".JPG");
    assert forall i :: 0 <= i < 4 ==> e[i] == ".jpg"[i];
    assert e == ".jpg";
  }
}
