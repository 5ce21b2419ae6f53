/**
 * The base 64 encoding of section 4 of RFC 4648, as Python's
 * `base64.b64encode` produces it (standard alphabet, `=` padding), and the
 * decoder that inverts it.
 */
module Base64 {
  import opened Wrappers
  import opened Strings
  import opened Bytes

  /** A 6-bit group: the value of one character of the alphabet. */
  type Sextet = i: int | 0 <= i < 64

  /** The padding character. */
  const PadChar: char := '='

  /** The characters of the alphabet (Table 1 of RFC 4648). */
  predicate IsAlphabet(c: char) {
    ('A' <= c <= 'Z') || ('a' <= c <= 'z') || ('0' <= c <= '9') || c == '+' || c == '/'
  }

  /** A text made of alphabet characters only. */
  predicate IsAlphabetText(s: string) {
    forall i :: 0 <= i < |s| ==> IsAlphabet(s[i])
  }

  /** The character that encodes a 6-bit value (Table 1 of RFC 4648). */
  function IndexChar(i: Sextet): (c: char) {
    if i < 26 then ('A' as int + i) as char
    else if i < 52 then ('a' as int + (i - 26)) as char
    else if i < 62 then ('0' as int + (i - 52)) as char
    else if i == 62 then '+'
    else '/'
  }

  /** The 6-bit value a character of the alphabet encodes. */
  function CharIndex(c: char): (i: Sextet)
    requires IsAlphabet(c)
    ensures IndexChar(i) == c
  {
    if 'A' <= c <= 'Z' then c as int - 'A' as int
    else if 'a' <= c <= 'z' then c as int - 'a' as int + 26
    else if '0' <= c <= '9' then c as int - '0' as int + 52
    else if c == '+' then 62
    else 63
  }

  /** Every 6-bit value is encoded by an alphabet character that decodes back to it. */
  lemma IndexCharDecodes(i: Sextet)
    ensures IsAlphabet(IndexChar(i)) && CharIndex(IndexChar(i)) == i
  {
  }

  /** Three octets (24 bits) as four characters of 6 bits each. */
  function EncodeQuantum(b0: Byte, b1: Byte, b2: Byte): (q: string) {
    [IndexChar(b0 / 4), IndexChar(b0 % 4 * 16 + b1 / 16), IndexChar(b1 % 16 * 4 + b2 / 64), IndexChar(b2 % 64)]
  }

  /** A final single octet as two characters, zero bits filling the second (the two `=` are added by `Encode`). */
  function EncodeOne(b0: Byte): (q: string) {
    [IndexChar(b0 / 4), IndexChar(b0 % 4 * 16)]
  }

  /** A final pair of octets as three characters, zero bits filling the third (the `=` is added by `Encode`). */
  function EncodeTwo(b0: Byte, b1: Byte): (q: string) {
    [IndexChar(b0 / 4), IndexChar(b0 % 4 * 16 + b1 / 16), IndexChar(b1 % 16 * 4)]
  }

  /** `base64.b64encode`: quanta of three octets, the last one padded with `=`. */
  function Encode(data: seq<Byte>): (e: string)
    ensures |e| == (|data| + 2) / 3 * 4
  {
    if |data| == 0 then ""
    else if |data| == 1 then EncodeOne(data[0]) + [PadChar, PadChar]
    else if |data| == 2 then EncodeTwo(data[0], data[1]) + [PadChar]
    else EncodeQuantum(data[0], data[1], data[2]) + Encode(data[3..])
  }

  /** Four alphabet characters back to the three octets they carry. */
  function DecodeQuantum(c0: char, c1: char, c2: char, c3: char): (bytes: seq<Byte>)
    requires IsAlphabet(c0) && IsAlphabet(c1) && IsAlphabet(c2) && IsAlphabet(c3)
  {
    var i0, i1, i2, i3 := CharIndex(c0), CharIndex(c1), CharIndex(c2), CharIndex(c3);
    [i0 * 4 + i1 / 16, i1 % 16 * 16 + i2 / 4, i2 % 4 * 64 + i3]
  }

  /** A final quantum `c0 c1 = =` back to its one octet. */
  function DecodeOne(c0: char, c1: char): (bytes: seq<Byte>)
    requires IsAlphabet(c0) && IsAlphabet(c1)
  {
    [CharIndex(c0) * 4 + CharIndex(c1) / 16]
  }

  /** A final quantum `c0 c1 c2 =` back to its two octets. */
  function DecodeTwo(c0: char, c1: char, c2: char): (bytes: seq<Byte>)
    requires IsAlphabet(c0) && IsAlphabet(c1) && IsAlphabet(c2)
  {
    var i0, i1, i2 := CharIndex(c0), CharIndex(c1), CharIndex(c2);
    [i0 * 4 + i1 / 16, i1 % 16 * 16 + i2 / 4]
  }

  /**
   * Decoding of padded text: the length must be a multiple of four and `=`
   * may only end the last quantum; anything else is rejected. Non-zero pad
   * bits in a final quantum are accepted (`"AB=="` decodes like `"AA=="`),
   * which section 3.5 of RFC 4648 allows a decoder to do.
   */
  function Decode(s: string): (r: Option<seq<Byte>>)
    ensures r.Some? ==> |s| % 4 == 0 && |r.value| <= |s| / 4 * 3
    decreases |s|
  {
    if |s| == 0 then Some([])
    else if |s| < 4 || !IsAlphabet(s[0]) || !IsAlphabet(s[1]) then None
    else if |s| == 4 && s[2] == PadChar && s[3] == PadChar then Some(DecodeOne(s[0], s[1]))
    else if !IsAlphabet(s[2]) then None
    else if |s| == 4 && s[3] == PadChar then Some(DecodeTwo(s[0], s[1], s[2]))
    else if !IsAlphabet(s[3]) then None
    else
      match Decode(s[4..])
      case None => None
      case Some(rest) => Some(DecodeQuantum(s[0], s[1], s[2], s[3]) + rest)
  }

  /** Python's re-padding idiom `s + "=" * (-len(s) % 4)`. */
  function Pad(s: string): (r: string)
    ensures |r| % 4 == 0 && s <= r && |r| < |s| + 4
    ensures forall i :: |s| <= i < |r| ==> r[i] == PadChar
  {
    s + seq((-|s|) % 4, _ => PadChar)
  }

  /** The bit shuffling of a full quantum, on numbers. */
  lemma QuantumBits(b0: Byte, b1: Byte, b2: Byte)
    ensures var i0, i1, i2, i3 := b0 / 4, b0 % 4 * 16 + b1 / 16, b1 % 16 * 4 + b2 / 64, b2 % 64;
      0 <= i0 < 64 && 0 <= i1 < 64 && 0 <= i2 < 64 && 0 <= i3 < 64 &&
      i0 * 4 + i1 / 16 == b0 && i1 % 16 * 16 + i2 / 4 == b1 && i2 % 4 * 64 + i3 == b2
  {
  }

  /** Decoding four alphabet characters reassembles their 6-bit values into three octets. */
  lemma DecodeSextets(i0: Sextet, i1: Sextet, i2: Sextet, i3: Sextet)
    ensures IsAlphabet(IndexChar(i0)) && IsAlphabet(IndexChar(i1)) && IsAlphabet(IndexChar(i2)) && IsAlphabet(IndexChar(i3))
    ensures DecodeQuantum(IndexChar(i0), IndexChar(i1), IndexChar(i2), IndexChar(i3))
      == [i0 * 4 + i1 / 16, i1 % 16 * 16 + i2 / 4, i2 % 4 * 64 + i3]
  {
    IndexCharDecodes(i0);
    IndexCharDecodes(i1);
    IndexCharDecodes(i2);
    IndexCharDecodes(i3);
  }

  /** A full quantum is four alphabet characters. */
  lemma QuantumAlphabet(b0: Byte, b1: Byte, b2: Byte)
    ensures IsAlphabetText(EncodeQuantum(b0, b1, b2))
  {
    IndexCharDecodes(b0 / 4);
    IndexCharDecodes(b0 % 4 * 16 + b1 / 16);
    IndexCharDecodes(b1 % 16 * 4 + b2 / 64);
    IndexCharDecodes(b2 % 64);
  }

  lemma QuantumRoundTrip(b0: Byte, b1: Byte, b2: Byte)
    ensures var q := EncodeQuantum(b0, b1, b2);
      IsAlphabet(q[0]) && IsAlphabet(q[1]) && IsAlphabet(q[2]) && IsAlphabet(q[3])
      && DecodeQuantum(q[0], q[1], q[2], q[3]) == [b0, b1, b2]
  {
    var i0: Sextet, i1: Sextet, i2: Sextet, i3: Sextet := b0 / 4, b0 % 4 * 16 + b1 / 16, b1 % 16 * 4 + b2 / 64, b2 % 64;
    QuantumBits(b0, b1, b2);
    DecodeSextets(i0, i1, i2, i3);
    var q := EncodeQuantum(b0, b1, b2);
    assert q == [IndexChar(i0), IndexChar(i1), IndexChar(i2), IndexChar(i3)];
  }

  lemma OneRoundTrip(b0: Byte)
    ensures var q := EncodeOne(b0);
      IsAlphabet(q[0]) && IsAlphabet(q[1]) && DecodeOne(q[0], q[1]) == [b0]
  {
    var i0: Sextet, i1: Sextet := b0 / 4, b0 % 4 * 16;
    assert i0 * 4 + i1 / 16 == b0;
    IndexCharDecodes(i0);
    IndexCharDecodes(i1);
  }

  lemma TwoRoundTrip(b0: Byte, b1: Byte)
    ensures var q := EncodeTwo(b0, b1);
      IsAlphabet(q[0]) && IsAlphabet(q[1]) && IsAlphabet(q[2]) && DecodeTwo(q[0], q[1], q[2]) == [b0, b1]
  {
    QuantumBits(b0, b1, 0);
    var i0: Sextet, i1: Sextet, i2: Sextet := b0 / 4, b0 % 4 * 16 + b1 / 16, b1 % 16 * 4;
    IndexCharDecodes(i0);
    IndexCharDecodes(i1);
    IndexCharDecodes(i2);
    var q := EncodeTwo(b0, b1);
    assert q == [IndexChar(i0), IndexChar(i1), IndexChar(i2)];
    assert DecodeTwo(q[0], q[1], q[2]) == [i0 * 4 + i1 / 16, i1 % 16 * 16 + i2 / 4];
  }

  /** Decoding inverts encoding (RFC 4648 section 4). */
  lemma {:induction false} DecodeEncode(data: seq<Byte>)
    ensures Decode(Encode(data)) == Some(data)
  {
    if |data| == 1 {
      DecodeEncodeOne(data);
    } else if |data| == 2 {
      DecodeEncodeTwo(data);
    } else if |data| >= 3 {
      DecodeEncode(data[3..]);
      DecodeEncodeFirstQuantum(data);
    }
  }

  lemma DecodeEncodeOne(data: seq<Byte>)
    requires |data| == 1
    ensures Decode(Encode(data)) == Some(data)
  {
    OneRoundTrip(data[0]);
    var s := Encode(data);
    assert s == [s[0], s[1], PadChar, PadChar];
    assert data == [data[0]];
  }

  lemma DecodeEncodeTwo(data: seq<Byte>)
    requires |data| == 2
    ensures Decode(Encode(data)) == Some(data)
  {
    TwoRoundTrip(data[0], data[1]);
    var s := Encode(data);
    assert s == [s[0], s[1], s[2], PadChar];
    assert s[2] != PadChar;
    assert data == [data[0], data[1]];
  }

  /** A leading full quantum decodes to its three octets, ahead of the rest. */
  lemma DecodeEncodeQuantum(b0: Byte, b1: Byte, b2: Byte, rest: seq<Byte>)
    requires Decode(Encode(rest)) == Some(rest)
    ensures Decode(Encode([b0, b1, b2] + rest)) == Some([b0, b1, b2] + rest)
  {
    var data := [b0, b1, b2] + rest;
    var s := Encode(data);
    QuantumRoundTrip(b0, b1, b2);
    assert data[3..] == rest;
    assert s[4..] == Encode(rest);
    assert s[..4] == EncodeQuantum(b0, b1, b2);
    assert s[3] != PadChar;
  }

  /** A sequence of three or more elements is its first three followed by the rest. */
  lemma FirstThree(data: seq<Byte>)
    requires |data| >= 3
    ensures data == [data[0], data[1], data[2]] + data[3..]
  {
  }

  /** The same, for any text of at least three octets. */
  lemma DecodeEncodeFirstQuantum(data: seq<Byte>)
    requires |data| >= 3 && Decode(Encode(data[3..])) == Some(data[3..])
    ensures Decode(Encode(data)) == Some(data)
  {
    FirstThree(data);
    DecodeEncodeQuantum(data[0], data[1], data[2], data[3..]);
  }

  /**
   * `rstrip("=")` leaves only alphabet characters (so no `=`) and padding
   * what is left gives `e` back.
   */
  predicate UnpadsCleanly(e: string) {
    var u := RStrip(e, PadChar);
    IsAlphabetText(u) && Pad(u) == e
  }

  /**
   * The unpadded encoding, `b64encode(data).rstrip("=")`, uses only alphabet
   * characters (so it holds no `=`), and padding it again restores the
   * padded encoding.
   */
  lemma {:induction false} StripPadRoundTrip(data: seq<Byte>)
    ensures UnpadsCleanly(Encode(data))
  {
    if |data| == 1 {
      StripPadOne(data[0]);
      assert data == [data[0]];
    } else if |data| == 2 {
      StripPadTwo(data[0], data[1]);
      assert data == [data[0], data[1]];
    } else if |data| >= 3 {
      StripPadRoundTrip(data[3..]);
      StripPadQuantum(data[0], data[1], data[2], data[3..]);
      FirstThree(data);
    }
  }

  lemma StripPadQuantum(b0: Byte, b1: Byte, b2: Byte, rest: seq<Byte>)
    requires UnpadsCleanly(Encode(rest))
    ensures UnpadsCleanly(Encode([b0, b1, b2] + rest))
  {
    var data := [b0, b1, b2] + rest;
    var q := EncodeQuantum(b0, b1, b2);
    QuantumAlphabet(b0, b1, b2);
    assert data[3..] == rest;
    var e := Encode(data);
    assert e == q + Encode(rest);
    RStripAfterAlphabet(q, Encode(rest));
    var u := RStrip(Encode(rest), PadChar);
    PadAfterQuantum(q, u);
    assert forall i :: 0 <= i < |q + u| ==> IsAlphabet((q + u)[i]);
  }

  /** A leading full quantum does not change how much padding is needed. */
  lemma PadAfterQuantum(q: string, u: string)
    requires |q| == 4
    ensures Pad(q + u) == q + Pad(u)
  {
    var k := (-|u|) % 4;
    assert (-|q + u|) % 4 == k by {
      assert -|q + u| == -|u| - 4;
    }
    assert seq((-|q + u|) % 4, _ => PadChar) == seq(k, _ => PadChar);
  }

  lemma StripPadOne(b0: Byte)
    ensures UnpadsCleanly(Encode([b0]))
  {
    OneRoundTrip(b0);
    var e := Encode([b0]);
    var q := EncodeOne(b0);
    assert e == q + [PadChar, PadChar];
    assert e[..3] == q + [PadChar];
    assert e[..3][..2] == q;
    assert RStrip(q, PadChar) == q;
  }

  lemma StripPadTwo(b0: Byte, b1: Byte)
    ensures UnpadsCleanly(Encode([b0, b1]))
  {
    TwoRoundTrip(b0, b1);
    var e := Encode([b0, b1]);
    var q := EncodeTwo(b0, b1);
    assert e == q + [PadChar];
    assert e[..3] == q;
    assert RStrip(q, PadChar) == q;
  }

  /** Stripping stops at a final alphabet character of the left operand. */
  lemma {:induction false} RStripAfterAlphabet(q: string, t: string)
    requires |q| > 0 && IsAlphabet(q[|q| - 1])
    ensures RStrip(q + t, PadChar) == q + RStrip(t, PadChar)
    decreases |t|
  {
    if |t| > 0 && t[|t| - 1] == PadChar {
      assert (q + t)[..|q + t| - 1] == q + t[..|t| - 1];
      RStripAfterAlphabet(q, t[..|t| - 1]);
    } else if |t| == 0 {
      assert q + t == q;
    }
  }
}
