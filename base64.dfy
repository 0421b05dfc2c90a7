/**
  The Base64 encoding of section 4 of RFC 4648: the standard alphabet
  `A-Z a-z 0-9 + /`, every three octets written as four characters, and a final
  group of one or two octets padded with `=` to four characters.

  Decoding is strict about the alphabet, the length (a multiple of four) and the
  place of the padding (only at the very end), where Python's default decoder
  skips stray characters and stops at the first complete padding. Like Python's
  decoder it does not insist that the unused bits of the last character before
  the padding be zero (section 3.5 of RFC 4648 leaves that to the decoder), so
  "QR==" decodes just like "QQ==".
 */
module Base64 {
  import opened Wrappers
  import opened Bytes

  /** The character of the alphabet for the six-bit value `v` (Table 1 of RFC 4648). */
  function Letter(v: int): char
    requires 0 <= v < 64
  {
    if v < 26 then (65 + v) as char
    else if v < 52 then (97 + v - 26) as char
    else if v < 62 then (48 + v - 52) as char
    else if v == 62 then '+'
    else '/'
  }

  /** The six-bit value a character of the alphabet stands for; None for any other character. */
  function ValueOf(c: char): (r: Option<int>)
    ensures r.Some? ==> 0 <= r.value < 64 && Letter(r.value) == c
    ensures r.Some? ==> c as int < 128
  {
    if 'A' <= c <= 'Z' then Some(c as int - 65)
    else if 'a' <= c <= 'z' then Some(c as int - 97 + 26)
    else if '0' <= c <= '9' then Some(c as int - 48 + 52)
    else if c == '+' then Some(62)
    else if c == '/' then Some(63)
    else None
  }

  predicate IsLetter(c: char) {
    ValueOf(c).Some?
  }

  /** Every character of the alphabet is read back as the value it was written for. */
  lemma ValueOfLetter(v: int)
    requires 0 <= v < 64
    ensures ValueOf(Letter(v)) == Some(v)
  {
  }

  /** Four characters for one group of one to three octets, padded with `=`. */
  function EncodeGroup(g: seq<Byte>): (r: string)
    requires 1 <= |g| <= 3
    ensures |r| == 4
    ensures IsLetter(r[0]) && IsLetter(r[1])
    ensures (|g| > 1 ==> IsLetter(r[2])) && (|g| == 1 ==> r[2] == '=')
    ensures (|g| > 2 ==> IsLetter(r[3])) && (|g| <= 2 ==> r[3] == '=')
  {
    var b0 := g[0] as int;
    var b1 := if |g| > 1 then g[1] as int else 0;
    var b2 := if |g| > 2 then g[2] as int else 0;
    ValueOfLetter(b0 / 4);
    ValueOfLetter(b0 % 4 * 16 + b1 / 16);
    ValueOfLetter(b1 % 16 * 4 + b2 / 64);
    ValueOfLetter(b2 % 64);
    [Letter(b0 / 4), Letter(b0 % 4 * 16 + b1 / 16)]
      + (if |g| > 1 then [Letter(b1 % 16 * 4 + b2 / 64)] else ['='])
      + (if |g| > 2 then [Letter(b2 % 64)] else ['='])
  }

  /** The Base64 text of `bs`: four characters per started group of three octets. */
  function Encode(bs: seq<Byte>): (s: string)
    ensures |s| == 4 * ((|bs| + 2) / 3)
    ensures forall i :: 0 <= i < |s| ==> IsLetter(s[i]) || s[i] == '='
    ensures forall i :: 0 <= i < |s| ==> s[i] as int < 128
  {
    if |bs| == 0 then []
    else if |bs| <= 3 then
      assert (|bs| + 2) / 3 == 1;
      EncodeGroup(bs)
    else
      var head := EncodeGroup(bs[..3]);
      var tail := Encode(bs[3..]);
      assert (|bs| + 2) / 3 == (|bs[3..]| + 2) / 3 + 1;
      AlphabetConcat(head, tail);
      head + tail
  }

  /** Two texts of alphabet characters and `=` join into one. */
  lemma AlphabetConcat(a: string, b: string)
    requires forall i :: 0 <= i < |a| ==> IsLetter(a[i]) || a[i] == '='
    requires forall i :: 0 <= i < |b| ==> IsLetter(b[i]) || b[i] == '='
    ensures forall i :: 0 <= i < |a + b| ==> IsLetter((a + b)[i]) || (a + b)[i] == '='
    ensures forall i :: 0 <= i < |a + b| ==> (a + b)[i] as int < 128
  {
  }

  /**
    The octets of one group of four characters: three for four letters, two for
    three letters and `=`, one for two letters and `==`; None otherwise.
   */
  function DecodeGroup(q: string): (r: Option<seq<Byte>>)
    requires |q| == 4
    ensures r.Some? ==> 1 <= |r.value| <= 3
  {
    var v0, v1, v2, v3 := ValueOf(q[0]), ValueOf(q[1]), ValueOf(q[2]), ValueOf(q[3]);
    if v0.None? || v1.None? then None
    else
      var first := v0.value * 4 + v1.value / 16;
      if v2.Some? && v3.Some? then
        Some([first, v1.value % 16 * 16 + v2.value / 4, v2.value % 4 * 64 + v3.value])
      else if v2.Some? && q[3] == '=' then
        Some([first, v1.value % 16 * 16 + v2.value / 4])
      else if q[2] == '=' && q[3] == '=' then
        Some([first])
      else None
  }

  /**
    The octets that `s` stands for, or None when `s` is not Base64 text. Text that
    decodes is made of alphabet characters and `=` only, and has exactly the length
    an encoding of the decoded octets has.
   */
  function Decode(s: string): (r: Option<seq<Byte>>)
    ensures r.Some? ==> |s| == 4 * ((|r.value| + 2) / 3)
    ensures r.Some? ==> forall i :: 0 <= i < |s| ==> IsLetter(s[i]) || s[i] == '='
    decreases |s|
  {
    if s == [] then Some([])
    else if |s| < 4 then None
    else match DecodeGroup(s[..4])
      case None => None
      case Some(g) =>
        if |s| == 4 then Some(g)
        else if |g| < 3 then None   // padding before the last group
        else match Decode(s[4..])
          case None => None
          case Some(rest) => Some(g + rest)
  }

  /** A group decodes back to the octets it was encoded from. */
  lemma DecodeEncodeGroup(g: seq<Byte>)
    requires 1 <= |g| <= 3
    ensures DecodeGroup(EncodeGroup(g)) == Some(g)
  {
    var q := EncodeGroup(g);
    var b0 := g[0] as int;
    var b1 := if |g| > 1 then g[1] as int else 0;
    var b2 := if |g| > 2 then g[2] as int else 0;
    ValueOfLetter(b0 / 4);
    ValueOfLetter(b0 % 4 * 16 + b1 / 16);
    ValueOfLetter(b1 % 16 * 4 + b2 / 64);
    ValueOfLetter(b2 % 64);
    assert (b0 % 4 * 16 + b1 / 16) / 16 == b0 % 4;
    assert (b0 % 4 * 16 + b1 / 16) % 16 == b1 / 16;
    assert (b1 % 16 * 4 + b2 / 64) / 4 == b1 % 16;
    assert (b1 % 16 * 4 + b2 / 64) % 4 == b2 / 64;
    var r := DecodeGroup(q).value;
    assert |r| == |g|;
    assert r[0] == g[0];
    assert |g| > 1 ==> r[1] == g[1];
    assert |g| > 2 ==> r[2] == g[2];
    assert forall i :: 0 <= i < |g| ==> r[i] == g[i];
    assert r == g;
  }

  /** Round trip: decoding the Base64 text of any octets gives those octets back. */
  lemma {:induction false} DecodeEncode(bs: seq<Byte>)
    ensures Decode(Encode(bs)) == Some(bs)
    decreases |bs|
  {
    if 0 < |bs| <= 3 {
      DecodeEncodeGroup(bs);
      assert Encode(bs)[..4] == EncodeGroup(bs);
    } else if |bs| > 3 {
      var s := Encode(bs);
      var head := EncodeGroup(bs[..3]);
      DecodeEncodeGroup(bs[..3]);
      assert s[..4] == head;
      assert s[4..] == Encode(bs[3..]);
      DecodeEncode(bs[3..]);
      assert bs == bs[..3] + bs[3..];
    }
  }
}
