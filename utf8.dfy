/**
 * UTF-8 (RFC 3629): Python's `str.encode("utf-8")` and the strict decoder
 * that inverts it. A Dafny `char` is a Unicode scalar value, so every string
 * has an encoding.
 */
module Utf8 {
  import opened Wrappers
  import opened Bytes

  /** The bytes that encode one scalar value (section 3 of RFC 3629). */
  function EncodeChar(c: char): (bytes: seq<Byte>)
    ensures 1 <= |bytes| <= 4
  {
    var cp := c as int;
    if cp < 0x80 then [cp]
    else if cp < 0x800 then [0xC0 + cp / 64, 0x80 + cp % 64]
    else if cp < 0x10000 then [0xE0 + cp / 64 / 64, 0x80 + cp / 64 % 64, 0x80 + cp % 64]
    else [0xF0 + cp / 64 / 64 / 64, 0x80 + cp / 64 / 64 % 64, 0x80 + cp / 64 % 64, 0x80 + cp % 64]
  }

  /** `s.encode("utf-8")`: the encodings of the characters, in order. */
  function Encode(s: string): (bytes: seq<Byte>)
    ensures |s| <= |bytes| <= 4 * |s|
  {
    if |s| == 0 then [] else EncodeChar(s[0]) + Encode(s[1..])
  }

  /** A trailing byte of a multi-byte sequence, `10xxxxxx`. */
  predicate IsContinuation(b: Byte) {
    0x80 <= b < 0xC0
  }

  /** The six payload bits of a continuation byte. */
  function Payload(b: Byte): (bits: int) {
    b as int - 0x80
  }

  /** A code point that is a Unicode scalar value, i.e. a Dafny `char`. */
  predicate IsScalar(cp: int) {
    (0 <= cp < 0xD800) || (0xE000 <= cp < 0x110000)
  }

  /**
   * Decodes the first character: the character and the number of bytes it
   * used, or `None` for a malformed, overlong or surrogate sequence.
   */
  function DecodeFirst(bytes: seq<Byte>): (r: Option<(char, nat)>)
    requires |bytes| > 0
    ensures r.Some? ==> 1 <= r.value.1 <= |bytes|
  {
    var b0 := bytes[0] as int;
    if b0 < 0x80 then Some((b0 as char, 1))
    else if 0xC2 <= b0 < 0xE0 && |bytes| >= 2 && IsContinuation(bytes[1]) then
      Some((((b0 - 0xC0) * 64 + Payload(bytes[1])) as char, 2))
    else if 0xE0 <= b0 < 0xF0 && |bytes| >= 3 && IsContinuation(bytes[1]) && IsContinuation(bytes[2]) then
      var cp := ((b0 - 0xE0) * 64 + Payload(bytes[1])) * 64 + Payload(bytes[2]);
      if 0x800 <= cp && IsScalar(cp) then Some((cp as char, 3)) else None
    else if 0xF0 <= b0 < 0xF5 && |bytes| >= 4
      && IsContinuation(bytes[1]) && IsContinuation(bytes[2]) && IsContinuation(bytes[3]) then
      var cp := (((b0 - 0xF0) * 64 + Payload(bytes[1])) * 64 + Payload(bytes[2])) * 64 + Payload(bytes[3]);
      if 0x10000 <= cp < 0x110000 then Some((cp as char, 4)) else None
    else None
  }

  /** `bytes.decode("utf-8")`, with `None` standing for `UnicodeDecodeError`. */
  function Decode(bytes: seq<Byte>): (r: Option<string>)
    ensures r.Some? ==> |r.value| <= |bytes|
    decreases |bytes|
  {
    if |bytes| == 0 then Some("")
    else
      match DecodeFirst(bytes)
      case None => None
      case Some((c, n)) =>
        match Decode(bytes[n..])
        case None => None
        case Some(rest) => Some([c] + rest)
  }

  /** The first character of an encoding decodes back, consuming exactly its bytes. */
  lemma DecodeFirstEncodeChar(c: char, rest: seq<Byte>)
    ensures DecodeFirst(EncodeChar(c) + rest) == Some((c, |EncodeChar(c)|))
  {
    var cp := c as int;
    if cp < 0x80 {
    } else if cp < 0x800 {
      DecodeTwoBytes(c, rest);
    } else if cp < 0x10000 {
      DecodeThreeBytes(c, rest);
    } else {
      DecodeFourBytes(c, rest);
    }
  }

  lemma DecodeTwoBytes(c: char, rest: seq<Byte>)
    requires 0x80 <= c as int < 0x800
    ensures DecodeFirst(EncodeChar(c) + rest) == Some((c, 2))
  {
    var cp := c as int;
    var bytes := EncodeChar(c) + rest;
    assert bytes[0] == 0xC0 + cp / 64 && bytes[1] == 0x80 + cp % 64;
    assert (bytes[0] as int - 0xC0) * 64 + Payload(bytes[1]) == cp;
  }

  lemma DecodeThreeBytes(c: char, rest: seq<Byte>)
    requires 0x800 <= c as int < 0x10000
    ensures DecodeFirst(EncodeChar(c) + rest) == Some((c, 3))
  {
    var cp := c as int;
    var bytes := EncodeChar(c) + rest;
    assert bytes[0] == 0xE0 + cp / 64 / 64 && bytes[1] == 0x80 + cp / 64 % 64 && bytes[2] == 0x80 + cp % 64;
    assert ((bytes[0] as int - 0xE0) * 64 + Payload(bytes[1])) * 64 + Payload(bytes[2]) == cp;
  }

  lemma DecodeFourBytes(c: char, rest: seq<Byte>)
    requires 0x10000 <= c as int
    ensures DecodeFirst(EncodeChar(c) + rest) == Some((c, 4))
  {
    var cp := c as int;
    var bytes := EncodeChar(c) + rest;
    assert bytes[0] == 0xF0 + cp / 64 / 64 / 64 && bytes[1] == 0x80 + cp / 64 / 64 % 64;
    assert bytes[2] == 0x80 + cp / 64 % 64 && bytes[3] == 0x80 + cp % 64;
    assert (((bytes[0] as int - 0xF0) * 64 + Payload(bytes[1])) * 64 + Payload(bytes[2])) * 64 + Payload(bytes[3]) == cp;
  }

  /** Decoding inverts encoding (RFC 3629): `s.encode("utf-8").decode("utf-8") == s`. */
  lemma {:induction false} DecodeEncode(s: string)
    ensures Decode(Encode(s)) == Some(s)
  {
    if |s| > 0 {
      var e := EncodeChar(s[0]);
      DecodeFirstEncodeChar(s[0], Encode(s[1..]));
      DecodeEncode(s[1..]);
      assert (e + Encode(s[1..]))[|e|..] == Encode(s[1..]);
      assert s == [s[0]] + s[1..];
    }
  }

  /** Different strings have different encodings. */
  lemma EncodeInjective(s: string, t: string)
    requires Encode(s) == Encode(t)
    ensures s == t
  {
    DecodeEncode(s);
    DecodeEncode(t);
  }
}
