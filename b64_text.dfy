/**
  The text codec of utils_b64.py: `b64e` writes a text as the Base64 of its UTF-8
  octets, `b64d` reverses that and falls back to returning its input whenever the
  input is not such an encoding, and `is_b64` asks whether re-encoding the decoded
  text reproduces the input.

  Python's `None` is not a separate value here: all three functions treat `None`
  exactly as they treat the empty text (utils_b64.py:4-5, 9-10, 17-18).
 */
module B64Text {
  import opened Wrappers
  import Bytes
  import Utf8
  import Base64

  /** Every character is below 128, so `str.encode("ascii")` succeeds. */
  predicate IsAscii(s: string) {
    forall i :: 0 <= i < |s| ==> s[i] as int < 128
  }

  /** `b64e`: Base64 of the UTF-8 octets. */
  function B64e(txt: string): (r: string)
    ensures IsAscii(r)
    ensures |r| == 4 * ((|Utf8.Encode(txt)| + 2) / 3)
    ensures forall i :: 0 <= i < |r| ==> Base64.IsLetter(r[i]) || r[i] == '='
    ensures r == "" <==> txt == ""
  {
    Base64.Encode(Utf8.Encode(txt))
  }

  /**
    `b64d`: the text whose encoding `txt` is, or `txt` itself when it is not one.
    Whenever the result differs from the input, the input was ASCII Base64 text for
    the UTF-8 octets of the result.
   */
  function B64d(txt: string): (r: string)
    ensures txt == "" ==> r == ""
    ensures r == txt || (IsAscii(txt) && Base64.Decode(txt) == Some(Utf8.Encode(r)))
  {
    if txt == "" then ""
    else if !IsAscii(txt) then txt
    else match Base64.Decode(txt)
      case None => txt
      case Some(octets) =>
        match Utf8.Decode(octets)
        case None => txt
        case Some(t) => t
  }

  /**
    `is_b64`: non-empty and unchanged by decoding then encoding again. Only
    non-empty ASCII text that genuinely decodes (so, by `Base64.Decode`, text
    of a length divisible by four) passes.
   */
  predicate IsB64(txt: string): (r: bool)
    ensures r ==> txt != "" && IsAscii(txt)
    ensures r ==> Base64.Decode(txt).Some? && B64d(txt) != txt
  {
    txt != "" &&
      var d := B64d(txt);
      EncodingIsLonger(txt);
      assert d == txt ==> B64e(d) != txt;
      B64e(d) == txt
  }

  /** Round trip: decoding the encoding of any text, the empty one included, gives it back. */
  lemma RoundTrip(t: string)
    ensures B64d(B64e(t)) == t
  {
    if t != "" {
      Base64.DecodeEncode(Utf8.Encode(t));
      Utf8.DecodeEncode(t);
    }
  }

  /** The encoding of any non-empty text is recognised as encoded. */
  lemma EncodedIsB64(t: string)
    requires t != ""
    ensures IsB64(B64e(t))
  {
    RoundTrip(t);
  }

  /** The decoder falls back to its input for non-ASCII text, text that is not Base64, and octets that are not UTF-8. */
  lemma FallsBack(txt: string)
    requires txt != ""
    requires !IsAscii(txt) || Base64.Decode(txt).None? || Utf8.Decode(Base64.Decode(txt).value).None?
    ensures B64d(txt) == txt
  {
  }

  /**
    Whenever the input is ASCII Base64 text for the UTF-8 octets of some text, the
    decoder returns that text, whether or not the input is that text's canonical
    encoding.
   */
  lemma DecodesWhenValid(txt: string, t: string)
    requires txt != "" && IsAscii(txt)
    requires Base64.Decode(txt) == Some(Utf8.Encode(t))
    ensures B64d(txt) == t
  {
    Utf8.DecodeEncode(t);
  }

  /** An encoding is always longer than the text it encodes. */
  lemma EncodingIsLonger(t: string)
    requires t != ""
    ensures |B64e(t)| > |t|
  {
    var n := |Utf8.Encode(t)|;
    var k := (n + 2) / 3;
    assert 3 * k >= n;
    assert k >= 1;
  }

  /**
    `is_b64` holds exactly of the encodings of non-empty texts, and when it holds
    the decoder did not take its fallback: it decoded genuine Base64 of UTF-8.
   */
  lemma IsB64Exactly(x: string)
    ensures IsB64(x) <==> x != "" && exists t :: B64e(t) == x
    ensures IsB64(x) ==> B64d(x) != x && IsAscii(x) && Base64.Decode(x) == Some(Utf8.Encode(B64d(x)))
  {
    if x != "" && exists t :: B64e(t) == x {
      var t :| B64e(t) == x;
      RoundTrip(t);
    }
    if IsB64(x) {
      if B64d(x) == x {
        EncodingIsLonger(x);
        assert false;
      }
    }
  }

  /**
    A false negative of the heuristic: "QR==" decodes to "A", but "A" encodes to
    "QQ==", so `is_b64("QR==")` is False although `b64d` decodes it.
   */
  lemma NonCanonicalPaddingRejected()
    ensures B64d("QR==") == "A"
    ensures !IsB64("QR==")
  {
    assert Base64.Decode("QR==") == Some([65]);
    assert Utf8.Encode("A") == [65];
    Utf8.DecodeEncode("A");
    assert Base64.Encode([65]) == "QQ==";
  }

  /**
    A false positive of the heuristic: the plain word "Blog" decodes to the valid
    UTF-8 text "\x06Z " and re-encodes to "Blog", so `is_b64("Blog")` is True.
   */
  lemma PlainWordAccepted()
    ensures B64d("Blog") == "\U{6}Z "
    ensures IsB64("Blog")
  {
    BlogOctets();
    Utf8.DecodeEncode("\U{6}Z ");
  }

  /** "Blog" is the Base64 text of the octets 6, 90, 32, which are the UTF-8 of "\x06Z ". */
  lemma BlogOctets()
    ensures Base64.Decode("Blog") == Some([6, 90, 32])
    ensures Base64.Encode([6, 90, 32]) == "Blog"
    ensures Utf8.Encode("\U{6}Z ") == [6, 90, 32]
  {
    var octets: seq<Bytes.Byte> := [6, 90, 32];
    assert Base64.EncodeGroup(octets) == [Base64.Letter(1), Base64.Letter(37), Base64.Letter(40), Base64.Letter(32)];
  }
}
