/**
  Base 64 encoding as section 4 of RFC 4648 defines it: the standard
  alphabet, `=` padding, no line breaks. Every 3 bytes become 4 characters of
  6 bits each; a final group of 1 or 2 bytes becomes 2 or 3 characters
  followed by `==` or `=`. The decoder reads back what the encoder writes.
 */
module Base64 {
  import opened Wrappers
  import opened Bits

  /** The character for a 6-bit value: A–Z, a–z, 0–9, `+`, `/`. */
  function SextetChar(v: nat): (c: char)
    requires v < 64
  {
    if v < 26 then ('A' as int + v) as char
    else if v < 52 then ('a' as int + (v - 26)) as char
    else if v < 62 then ('0' as int + (v - 52)) as char
    else if v == 62 then '+'
    else '/'
  }

  /** The 6-bit value of an alphabet character, None for any other character (`=` included). */
  function SextetValue(c: char): (r: Option<nat>)
    ensures r.Some? ==> r.value < 64
  {
    if 'A' <= c <= 'Z' then Some(c as int - 'A' as int)
    else if 'a' <= c <= 'z' then Some(c as int - 'a' as int + 26)
    else if '0' <= c <= '9' then Some(c as int - '0' as int + 52)
    else if c == '+' then Some(62)
    else if c == '/' then Some(63)
    else None
  }

  lemma SextetRoundTrip(v: nat)
    requires v < 64
    ensures SextetValue(SextetChar(v)) == Some(v)
  {
  }

  /** Three bytes as four sextets. */
  function EncodeTriple(b0: nat, b1: nat, b2: nat): string
    requires b0 < 256 && b1 < 256 && b2 < 256
  {
    [SextetChar(b0 / 4), SextetChar((b0 % 4) * 16 + b1 / 16),
     SextetChar((b1 % 16) * 4 + b2 / 64), SextetChar(b2 % 64)]
  }

  /** A final group of two bytes: three sextets and one `=`. */
  function EncodePair(b0: nat, b1: nat): string
    requires b0 < 256 && b1 < 256
  {
    [SextetChar(b0 / 4), SextetChar((b0 % 4) * 16 + b1 / 16), SextetChar((b1 % 16) * 4), '=']
  }

  /** A final group of one byte: two sextets and `==`. */
  function EncodeSingle(b0: nat): string
    requires b0 < 256
  {
    [SextetChar(b0 / 4), SextetChar((b0 % 4) * 16), '=', '=']
  }

  /** The encoding of `data`, 4 characters for every started group of 3 bytes. */
  function Encode(data: seq<Byte>): (s: string)
    ensures |s| == 4 * ((|data| + 2) / 3)
  {
    if |data| >= 3 then
      var rest := Encode(data[3..]);
      assert (|data| - 3 + 2) / 3 + 1 == (|data| + 2) / 3;
      EncodeTriple(data[0], data[1], data[2]) + rest
    else if |data| == 2 then EncodePair(data[0], data[1])
    else if |data| == 1 then EncodeSingle(data[0])
    else []
  }

  /** One group of 4 characters; padding is accepted only in the final group. */
  function DecodeQuad(q: string, final: bool): Option<seq<Byte>>
    requires |q| == 4
  {
    match (SextetValue(q[0]), SextetValue(q[1]), SextetValue(q[2]), SextetValue(q[3]))
    case (Some(c0), Some(c1), Some(c2), Some(c3)) =>
      Some([(c0 * 4 + c1 / 16), ((c1 % 16) * 16 + c2 / 4), ((c2 % 4) * 64 + c3)])
    case (Some(c0), Some(c1), Some(c2), None) =>
      if final && q[3] == '=' then
        Some([(c0 * 4 + c1 / 16), ((c1 % 16) * 16 + c2 / 4)])
      else None
    case (Some(c0), Some(c1), None, None) =>
      if final && q[2] == '=' && q[3] == '=' then Some([(c0 * 4 + c1 / 16)]) else None
    case _ => None
  }

  /** The bytes a Base 64 text stands for, None for text that is not Base 64. */
  function Decode(s: string): Option<seq<Byte>>
    decreases |s|
  {
    if s == [] then Some([])
    else if |s| < 4 then None
    else
      var head, tail := DecodeQuad(s[..4], |s| == 4), Decode(s[4..]);
      if head.Some? && tail.Some? then Some(head.value + tail.value) else None
  }

  /** Decoding an encoding gives back the original bytes. */
  lemma {:induction false} DecodeEncode(data: seq<Byte>)
    ensures Decode(Encode(data)) == Some(data)
    decreases |data|
  {
    var s := Encode(data);
    if |data| >= 3 {
      DecodeEncode(data[3..]);
      DecodeTripleStep(data);
    } else if |data| == 2 {
      DecodePair(data[0], data[1]);
      assert data == [data[0], data[1]];
    } else if |data| == 1 {
      DecodeSingle(data[0]);
      assert data == [data[0]];
    }
  }

  lemma DecodeTripleStep(data: seq<Byte>)
    requires |data| >= 3 && Decode(Encode(data[3..])) == Some(data[3..])
    ensures Decode(Encode(data)) == Some(data)
  {
    var s := Encode(data);
    var b0, b1, b2 := data[0], data[1], data[2];
    assert s == EncodeTriple(b0, b1, b2) + Encode(data[3..]);
    assert s[..4] == EncodeTriple(b0, b1, b2);
    assert s[4..] == Encode(data[3..]);
    DecodeTriple(b0, b1, b2, |s| == 4);
    SplitThree(data);
  }

  lemma SplitThree(data: seq<Byte>)
    requires |data| >= 3
    ensures data == [data[0], data[1], data[2]] + data[3..]
  {
  }

  lemma DecodeTriple(b0: Byte, b1: Byte, b2: Byte, final: bool)
    ensures DecodeQuad(EncodeTriple(b0, b1, b2), final) == Some([b0, b1, b2])
  {
    TripleRoundTrip(b0, b1, b2);
  }

  lemma DecodePair(x0: Byte, x1: Byte)
    ensures Decode(EncodePair(x0, x1)) == Some([x0, x1])
  {
    var b0, b1 := x0, x1;
    var s := EncodePair(b0, b1);
    TripleRoundTrip(b0, b1, 0);
    assert s[..4] == s && s[4..] == [];
    assert SextetValue(s[3]) == None;
    assert DecodeQuad(s, true) == Some([x0, x1]);
    assert Decode(s[4..]) == Some([]);
    assert [x0, x1] + [] == [x0, x1];
  }

  lemma DecodeSingle(x0: Byte)
    ensures Decode(EncodeSingle(x0)) == Some([x0])
  {
    var b0 := x0;
    var s := EncodeSingle(b0);
    TripleRoundTrip(b0, 0, 0);
    assert s[..4] == s && s[4..] == [];
    assert DecodeQuad(s, true) == Some([x0]);
    assert Decode(s[4..]) == Some([]);
    assert [x0] + [] == [x0];
  }

  /** The bit arithmetic of one group: the sextets of three bytes give the bytes back. */
  lemma TripleRoundTrip(b0: nat, b1: nat, b2: nat)
    requires b0 < 256 && b1 < 256 && b2 < 256
    ensures var c0, c1, c2, c3 := b0 / 4, (b0 % 4) * 16 + b1 / 16, (b1 % 16) * 4 + b2 / 64, b2 % 64;
      && c0 < 64 && c1 < 64 && c2 < 64 && c3 < 64
      && SextetValue(SextetChar(c0)) == Some(c0) && SextetValue(SextetChar(c1)) == Some(c1)
      && SextetValue(SextetChar(c2)) == Some(c2) && SextetValue(SextetChar(c3)) == Some(c3)
      && c0 * 4 + c1 / 16 == b0 && (c1 % 16) * 16 + c2 / 4 == b1 && (c2 % 4) * 64 + c3 == b2
  {
    var c0, c1, c2, c3 := b0 / 4, (b0 % 4) * 16 + b1 / 16, (b1 % 16) * 4 + b2 / 64, b2 % 64;
    SextetRoundTrip(c0);
    SextetRoundTrip(c1);
    SextetRoundTrip(c2);
    SextetRoundTrip(c3);
  }
}
