/**
  UTF-8 as RFC 3629 defines it: every Unicode scalar value becomes one to four
  octets, and a decoder accepts exactly the octet sequences that some text encodes
  to (no overlong forms, no encoded surrogates, nothing above U+10FFFF). This is
  what Python's `str.encode("utf-8")` and strict `bytes.decode("utf-8")` do.
 */
module Utf8 {
  import opened Wrappers
  import opened Bytes

  /** A continuation octet, 10xxxxxx. */
  predicate IsContinuation(b: Byte) {
    0x80 <= b < 0xC0
  }

  /** The octets of one character (section 3 of RFC 3629). */
  function EncodeChar(c: char): (r: seq<Byte>)
    ensures 1 <= |r| <= 4
    ensures |r| == 1 <==> c as int < 0x80
  {
    var n := c as int;
    if n < 0x80 then [n]
    else if n < 0x800 then [0xC0 + n / 64, 0x80 + n % 64]
    else if n < 0x1_0000 then [0xE0 + n / 4096, 0x80 + n / 64 % 64, 0x80 + n % 64]
    else [0xF0 + n / 0x4_0000, 0x80 + n / 4096 % 64, 0x80 + n / 64 % 64, 0x80 + n % 64]
  }

  /** The octets of a text: its characters' encodings, in order. */
  function Encode(s: string): (r: seq<Byte>)
    ensures |r| >= |s|
    ensures s == [] <==> r == []
  {
    if s == [] then [] else EncodeChar(s[0]) + Encode(s[1..])
  }

  /**
    The character that `b` starts with and how many octets it takes, or None when
    `b` does not start with a well-formed encoding.
   */
  function DecodeFirst(b: seq<Byte>): (r: Option<(char, nat)>)
    requires b != []
    ensures r.Some? ==> 1 <= r.value.1 <= |b|
  {
    var b0 := b[0] as int;
    if b0 < 0x80 then Some((b0 as char, 1))
    else if 0xC2 <= b0 < 0xE0 then
      if |b| >= 2 && IsContinuation(b[1]) then
        Some((((b0 - 0xC0) * 64 + (b[1] as int - 0x80)) as char, 2))
      else None
    else if 0xE0 <= b0 < 0xF0 then
      if |b| >= 3 && IsContinuation(b[1]) && IsContinuation(b[2]) then
        var n := (b0 - 0xE0) * 4096 + (b[1] as int - 0x80) * 64 + (b[2] as int - 0x80);
        if 0x800 <= n && !(0xD800 <= n < 0xE000) then Some((n as char, 3)) else None
      else None
    else if 0xF0 <= b0 < 0xF5 then
      if |b| >= 4 && IsContinuation(b[1]) && IsContinuation(b[2]) && IsContinuation(b[3]) then
        var n := (b0 - 0xF0) * 0x4_0000 + (b[1] as int - 0x80) * 4096 + (b[2] as int - 0x80) * 64 + (b[3] as int - 0x80);
        if 0x1_0000 <= n < 0x11_0000 then Some((n as char, 4)) else None
      else None
    else None
  }

  /**
    The text that `b` encodes, or None when `b` is not well-formed UTF-8. Decoding
    is strict: octets that decode are exactly the encoding of what they decode to.
   */
  function Decode(b: seq<Byte>): (r: Option<string>)
    ensures r.Some? ==> Encode(r.value) == b
    ensures r.Some? ==> |r.value| <= |b|
    decreases |b|
  {
    if b == [] then Some([])
    else match DecodeFirst(b)
      case None => None
      case Some((c, k)) =>
        match Decode(b[k..])
        case None => None
        case Some(rest) =>
          DecodedPrefix(b, rest);
          Some([c] + rest)
  }

  /** The first character's octets followed by the encoding of the rest give back all of `b`. */
  lemma DecodedPrefix(b: seq<Byte>, rest: string)
    requires b != [] && DecodeFirst(b).Some?
    requires Encode(rest) == b[DecodeFirst(b).value.1..]
    ensures Encode([DecodeFirst(b).value.0] + rest) == b
  {
    var (c, k) := DecodeFirst(b).value;
    EncodeCharOfDecodeFirst(b);
    assert ([c] + rest)[0] == c && ([c] + rest)[1..] == rest;
    assert b == b[..k] + b[k..];
  }

  /** Reassembling a number from its quotient and remainder by 64. */
  lemma Split64(n: int, q: int, r: int)
    requires 0 <= r < 64 && n == q * 64 + r
    ensures n / 64 == q && n % 64 == r
  {
  }

  /** A decoder reads back the character each encoding starts with. */
  lemma DecodeFirstOfEncodeChar(c: char, rest: seq<Byte>)
    ensures DecodeFirst(EncodeChar(c) + rest) == Some((c, |EncodeChar(c)|))
  {
    var n := c as int;
    if 0x80 <= n < 0x800 {
      DecodeFirstOfTwo(c, rest);
    } else if 0x800 <= n < 0x1_0000 {
      DecodeFirstOfThree(c, rest);
    } else if 0x1_0000 <= n {
      DecodeFirstOfFour(c, rest);
    }
  }

  lemma DecodeFirstOfTwo(c: char, rest: seq<Byte>)
    requires 0x80 <= c as int < 0x800
    ensures DecodeFirst(EncodeChar(c) + rest) == Some((c, 2))
  {
    var n := c as int;
    var b := EncodeChar(c) + rest;
    assert b[0] == 0xC0 + n / 64 && b[1] == 0x80 + n % 64;
  }

  lemma DecodeFirstOfThree(c: char, rest: seq<Byte>)
    requires 0x800 <= c as int < 0x1_0000
    ensures DecodeFirst(EncodeChar(c) + rest) == Some((c, 3))
  {
    var n := c as int;
    var b := EncodeChar(c) + rest;
    var q := n / 64;
    assert q / 64 == n / 4096;
    assert b[0] == 0xE0 + q / 64 && b[1] == 0x80 + q % 64 && b[2] == 0x80 + n % 64;
    assert (b[0] as int - 0xE0) * 4096 + (b[1] as int - 0x80) * 64 + (b[2] as int - 0x80) == n;
  }

  lemma DecodeFirstOfFour(c: char, rest: seq<Byte>)
    requires 0x1_0000 <= c as int
    ensures DecodeFirst(EncodeChar(c) + rest) == Some((c, 4))
  {
    var n := c as int;
    var b := EncodeChar(c) + rest;
    var q := n / 64;
    var q2 := q / 64;
    assert q2 == n / 4096;
    assert q2 / 64 == n / 0x4_0000;
    assert b[0] == 0xF0 + q2 / 64 && b[1] == 0x80 + q2 % 64;
    assert b[2] == 0x80 + q % 64 && b[3] == 0x80 + n % 64;
    assert (b[0] as int - 0xF0) * 0x4_0000 + (b[1] as int - 0x80) * 4096 + (b[2] as int - 0x80) * 64 + (b[3] as int - 0x80) == n;
  }

  /** Whatever the decoder reads from the front of `b` re-encodes to exactly the octets it consumed. */
  lemma EncodeCharOfDecodeFirst(b: seq<Byte>)
    requires b != [] && DecodeFirst(b).Some?
    ensures EncodeChar(DecodeFirst(b).value.0) == b[..DecodeFirst(b).value.1]
  {
    var (c, k) := DecodeFirst(b).value;
    var n := c as int;
    if k == 2 {
      Split64(n, b[0] - 0xC0, b[1] - 0x80);
    } else if k == 3 {
      var q := (b[0] as int - 0xE0) * 64 + (b[1] as int - 0x80);
      Split64(n, q, b[2] - 0x80);
      Split64(q, b[0] - 0xE0, b[1] - 0x80);
      assert n / 4096 == q / 64;
    } else if k == 4 {
      var q2 := (b[0] as int - 0xF0) * 64 + (b[1] as int - 0x80);
      var q: int := q2 * 64 + (b[2] as int - 0x80);
      Split64(n, q, b[3] - 0x80);
      Split64(q, q2, b[2] - 0x80);
      Split64(q2, b[0] - 0xF0, b[1] - 0x80);
      assert n / 4096 == q2;
      assert n / 0x4_0000 == q2 / 64;
    }
  }

  /** Round trip, text first: decoding the encoding of any text gives that text back. */
  lemma {:induction false} DecodeEncode(s: string)
    ensures Decode(Encode(s)) == Some(s)
  {
    if s != [] {
      var e := EncodeChar(s[0]);
      DecodeFirstOfEncodeChar(s[0], Encode(s[1..]));
      assert (e + Encode(s[1..]))[|e|..] == Encode(s[1..]);
      DecodeEncode(s[1..]);
      assert [s[0]] + s[1..] == s;
    }
  }
}
