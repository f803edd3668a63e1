/** The standard base64 encoding with padding (section 4 of RFC 4648), as
    Go's `base64.StdEncoding.EncodeToString` produces it; the persist loop
    stores every raw queue item in this form. The decoder is the inverse the
    stored text is meant to be read back with. */
module Base64 {
  import opened Errors

  newtype byte = x: int | 0 <= x < 256

  /** The character for a six-bit value: A-Z, a-z, 0-9, '+', '/'. */
  function Digit(v: int): char
    requires 0 <= v < 64
  {
    if v < 26 then ('A' as int + v) as char
    else if v < 52 then ('a' as int + (v - 26)) as char
    else if v < 62 then ('0' as int + (v - 52)) as char
    else if v == 62 then '+'
    else '/'
  }

  /** The six-bit value of an alphabet character; None for any other. */
  function DigitValue(c: char): (r: Option<int>)
    ensures r.Some? ==> 0 <= r.value < 64
  {
    if 'A' <= c <= 'Z' then Some(c as int - 'A' as int)
    else if 'a' <= c <= 'z' then Some(c as int - 'a' as int + 26)
    else if '0' <= c <= '9' then Some(c as int - '0' as int + 52)
    else if c == '+' then Some(62)
    else if c == '/' then Some(63)
    else None
  }

  lemma DigitRoundTrip(v: int)
    requires 0 <= v < 64
    ensures DigitValue(Digit(v)) == Some(v)
  {
  }

  const Pad: char := '='

  /** `base64.StdEncoding.EncodeToString`: every three bytes become four
      characters; a final one or two bytes become two or three characters
      followed by "==" or "=". */
  function Encode(data: seq<byte>): (s: string)
    ensures |s| == (|data| + 2) / 3 * 4
  {
    if |data| == 0 then []
    else if |data| < 3 then EncodeTail(data)
    else EncodeTriple(data[0], data[1], data[2]) + Encode(data[3..])
  }

  function EncodeTriple(x: byte, y: byte, z: byte): (s: string)
    ensures |s| == 4
  {
    var b0, b1, b2 := x as int, y as int, z as int;
    [Digit(b0 / 4), Digit(b0 % 4 * 16 + b1 / 16), Digit(b1 % 16 * 4 + b2 / 64), Digit(b2 % 64)]
  }

  function EncodeTail(data: seq<byte>): (s: string)
    requires 1 <= |data| <= 2
    ensures |s| == 4
  {
    var b0 := data[0] as int;
    if |data| == 1 then [Digit(b0 / 4), Digit(b0 % 4 * 16), Pad, Pad]
    else
      var b1 := data[1] as int;
      [Digit(b0 / 4), Digit(b0 % 4 * 16 + b1 / 16), Digit(b1 % 16 * 4), Pad]
  }

  /** Reads back padded base64 text; None when it is not a whole number of
      four-character groups of the alphabet with padding only at the end. */
  function Decode(s: string): Option<seq<byte>>
    decreases |s|
  {
    if |s| == 0 then Some([])
    else if |s| < 4 then None
    else
      var group :- DecodeQuad(s[..4], |s| == 4);
      if |s| == 4 then Some(group)
      else
        var rest :- Decode(s[4..]);
        Some(group + rest)
  }

  /** One group of four characters; only the `last` group may be padded. */
  function DecodeQuad(q: string, last: bool): Option<seq<byte>>
    requires |q| == 4
  {
    var c0 :- DigitValue(q[0]);
    var c1 :- DigitValue(q[1]);
    if last && q[2] == Pad && q[3] == Pad then
      Some([(c0 * 4 + c1 / 16) as byte])
    else
      var c2 :- DigitValue(q[2]);
      if last && q[3] == Pad then
        Some([(c0 * 4 + c1 / 16) as byte, (c1 % 16 * 16 + c2 / 4) as byte])
      else
        var c3 :- DigitValue(q[3]);
        Some([(c0 * 4 + c1 / 16) as byte, (c1 % 16 * 16 + c2 / 4) as byte, (c2 % 4 * 64 + c3) as byte])
  }

  /** Decoding the encoding of any bytes gives them back. */
  lemma {:induction false} DecodeEncode(data: seq<byte>)
    ensures Decode(Encode(data)) == Some(data)
    decreases |data|
  {
    if 1 <= |data| <= 2 {
      DecodeEncodeShort(data);
    } else if |data| >= 3 {
      DecodeEncode(data[3..]);
      DecodeEncodeStep(data);
    }
  }

  /** The round trip for the last one or two bytes. */
  lemma DecodeEncodeShort(data: seq<byte>)
    requires 1 <= |data| <= 2
    ensures Decode(Encode(data)) == Some(data)
  {
    DecodeTail(data);
    DecodeGroup(EncodeTail(data), [], data, []);
    assert EncodeTail(data) + [] == Encode(data);
    assert data + [] == data;
  }

  /** The round trip for three more bytes in front of bytes that already
      round-trip. */
  lemma DecodeEncodeStep(data: seq<byte>)
    requires |data| >= 3 && Decode(Encode(data[3..])) == Some(data[3..])
    ensures Decode(Encode(data)) == Some(data)
  {
    var head, rest := EncodeTriple(data[0], data[1], data[2]), Encode(data[3..]);
    DecodeTriple(data[0], data[1], data[2], |rest| == 0);
    DecodeGroup(head, rest, [data[0], data[1], data[2]], data[3..]);
    FrontThree(data);
  }

  lemma FrontThree(data: seq<byte>)
    requires |data| >= 3
    ensures [data[0], data[1], data[2]] + data[3..] == data
  {
    assert [data[0], data[1], data[2]] == data[..3];
  }

  /** A group followed by well-formed text decodes to the group's bytes
      followed by the text's. */
  lemma DecodeGroup(q: string, rest: string, g: seq<byte>, r: seq<byte>)
    requires |q| == 4 && DecodeQuad(q, |rest| == 0) == Some(g) && Decode(rest) == Some(r)
    ensures Decode(q + rest) == Some(g + r)
  {
    var s := q + rest;
    assert s[..4] == q && s[4..] == rest;
    if |rest| == 0 {
      assert g + r == g;
    }
  }

  lemma DecodeTail(data: seq<byte>)
    requires 1 <= |data| <= 2
    ensures DecodeQuad(EncodeTail(data), true) == Some(data)
  {
    var b0 := data[0] as int;
    DigitRoundTrip(b0 / 4);
    if |data| == 1 {
      DigitRoundTrip(b0 % 4 * 16);
      assert (b0 / 4) * 4 + (b0 % 4 * 16) / 16 == b0;
      assert data == [data[0]];
    } else {
      var b1 := data[1] as int;
      var c0, c1, c2 := b0 / 4, b0 % 4 * 16 + b1 / 16, b1 % 16 * 4;
      DigitRoundTrip(c1);
      DigitRoundTrip(c2);
      assert c0 * 4 + c1 / 16 == b0;
      assert c1 % 16 * 16 + c2 / 4 == b1;
      assert data == [data[0], data[1]];
    }
  }

  lemma DecodeTriple(x: byte, y: byte, z: byte, last: bool)
    ensures DecodeQuad(EncodeTriple(x, y, z), last) == Some([x, y, z])
  {
    var b0, b1, b2 := x as int, y as int, z as int;
    var c0, c1, c2, c3 := b0 / 4, b0 % 4 * 16 + b1 / 16, b1 % 16 * 4 + b2 / 64, b2 % 64;
    DigitRoundTrip(c0);
    DigitRoundTrip(c1);
    DigitRoundTrip(c2);
    DigitRoundTrip(c3);
    assert c0 * 4 + c1 / 16 == b0;
    assert c1 % 16 * 16 + c2 / 4 == b1;
    assert c2 % 4 * 64 + c3 == b2;
  }

  /** Encoding is one-to-one: distinct raw items get distinct stored text. */
  lemma EncodeInjective(a: seq<byte>, b: seq<byte>)
    requires Encode(a) == Encode(b)
    ensures a == b
  {
    DecodeEncode(a);
    DecodeEncode(b);
  }

  /** The stored payload of the repository's fixtures, "ZXZlbnRCYXNlNjQ=",
      is the encoding of the eleven bytes of "eventBase64". */
  lemma FixturePayload()
    ensures Encode([101, 118, 101, 110, 116, 66, 97, 115, 101, 54, 52]) == "ZXZlbnRCYXNlNjQ="
  {
    var data: seq<byte> := [101, 118, 101, 110, 116, 66, 97, 115, 101, 54, 52];
    FixtureFront();
    FixtureBack();
    assert data[3..][3..][3..] == [54, 52];
  }

  /** The first two groups of the fixture: "eve" and "ntB". */
  lemma FixtureFront()
    ensures EncodeTriple(101, 118, 101) == "ZXZl"
    ensures EncodeTriple(110, 116, 66) == "bnRC"
  {
  }

  /** The last two groups of the fixture: "ase" and the padded "64". */
  lemma FixtureBack()
    ensures EncodeTriple(97, 115, 101) == "YXNl"
    ensures EncodeTail([54, 52]) == "NjQ="
  {
  }
}
