/**
  UTF-8 as RFC 3629 defines it (sections 3 and 4): a Unicode scalar value
  (U+0000 to U+10FFFF, surrogates excluded) takes 1 to 4 bytes, and only the
  shortest form is well formed. Decoding succeeds exactly on the byte strings
  that are the encoding of some string, and then gives that string.
 */
module Utf8 {
  import opened Wrappers
  import opened Bits

  /** A continuation byte, 10xxxxxx. */
  predicate IsTail(b: Byte) { 0x80 <= b <= 0xBF }

  /** The bytes of one scalar value. */
  function EncodeChar(c: char): (r: seq<Byte>)
    ensures 1 <= |r| <= 4
  {
    var n := c as int;
    if n < 0x80 then [n]
    else if n < 0x800 then [0xC0 + n / 64, 0x80 + n % 64]
    else if n < 0x1_0000 then [0xE0 + n / 4096, 0x80 + (n / 64) % 64, 0x80 + n % 64]
    else [0xF0 + n / 262144, 0x80 + (n / 4096) % 64, 0x80 + (n / 64) % 64, 0x80 + n % 64]
  }

  /** The encoding of a string: its characters' bytes, in order. */
  function Encode(s: string): seq<Byte>
  {
    if s == [] then [] else EncodeChar(s[0]) + Encode(s[1..])
  }

  /**
    The first character of `b` and how many bytes it takes, following the
    well-formed sequences of section 4 of RFC 3629; None when `b` does not
    start with one.
   */
  function DecodeChar(b: seq<Byte>): (r: Option<(char, nat)>)
    requires |b| >= 1
    ensures r.Some? ==> 1 <= r.value.1 <= |b|
  {
    var b0 := b[0] as int;
    if b0 < 0x80 then Some((b0 as char, 1))
    else if 0xC2 <= b0 <= 0xDF then
      if |b| >= 2 && IsTail(b[1]) then Some((((b0 - 0xC0) * 64 + (b[1] as int - 0x80)) as char, 2))
      else None
    else if 0xE0 <= b0 <= 0xEF then
      if |b| >= 3 && IsTail(b[1]) && IsTail(b[2])
         && (b0 == 0xE0 ==> b[1] >= 0xA0) && (b0 == 0xED ==> b[1] <= 0x9F)
      then Some((((b0 - 0xE0) * 4096 + (b[1] as int - 0x80) * 64 + (b[2] as int - 0x80)) as char, 3))
      else None
    else if 0xF0 <= b0 <= 0xF4 then
      if |b| >= 4 && IsTail(b[1]) && IsTail(b[2]) && IsTail(b[3])
         && (b0 == 0xF0 ==> b[1] >= 0x90) && (b0 == 0xF4 ==> b[1] <= 0x8F)
      then Some((((b0 - 0xF0) * 262144 + (b[1] as int - 0x80) * 4096 + (b[2] as int - 0x80) * 64 + (b[3] as int - 0x80)) as char, 4))
      else None
    else None
  }

  /** The text `b` encodes, None when `b` is not well-formed UTF-8. */
  function Decode(b: seq<Byte>): (r: Option<string>)
    ensures r.Some? ==> |r.value| <= |b|
    ensures r.Some? ==> (r.value == [] <==> b == [])
    decreases |b|
  {
    if b == [] then Some([])
    else
      var first := DecodeChar(b);
      if first.None? then None
      else
        var rest := Decode(b[first.value.1..]);
        if rest.None? then None else Some([first.value.0] + rest.value)
  }

  /** The first character of an encoding decodes back, taking exactly its own bytes. */
  lemma DecodeEncodeChar(c: char, rest: seq<Byte>)
    ensures DecodeChar(EncodeChar(c) + rest) == Some((c, |EncodeChar(c)|))
  {
    var n := c as int;
    var b := EncodeChar(c) + rest;
    if n < 0x80 {
    } else if n < 0x800 {
      TwoByteForm(n);
    } else if n < 0x1_0000 {
      ThreeByteForm(n);
    } else {
      FourByteForm(n);
    }
  }

  lemma TwoByteForm(n: int)
    requires 0x80 <= n < 0x800
    ensures var b0, b1 := 0xC0 + n / 64, 0x80 + n % 64;
      0xC2 <= b0 <= 0xDF && 0x80 <= b1 <= 0xBF && (b0 - 0xC0) * 64 + (b1 - 0x80) == n
  {
  }

  lemma ThreeByteForm(n: int)
    requires 0x800 <= n < 0x1_0000 && !(0xD800 <= n < 0xE000)
    ensures var b0, b1, b2 := 0xE0 + n / 4096, 0x80 + (n / 64) % 64, 0x80 + n % 64;
      && 0xE0 <= b0 <= 0xEF && 0x80 <= b1 <= 0xBF && 0x80 <= b2 <= 0xBF
      && (b0 == 0xE0 ==> b1 >= 0xA0) && (b0 == 0xED ==> b1 <= 0x9F)
      && (b0 - 0xE0) * 4096 + (b1 - 0x80) * 64 + (b2 - 0x80) == n
  {
    var q := n / 64;
    assert n == q * 64 + n % 64;
    assert q == (q / 64) * 64 + q % 64;
    assert q / 64 == n / 4096;
  }

  lemma FourByteForm(n: int)
    requires 0x1_0000 <= n < 0x11_0000
    ensures var b0, b1, b2, b3 := 0xF0 + n / 262144, 0x80 + (n / 4096) % 64, 0x80 + (n / 64) % 64, 0x80 + n % 64;
      && 0xF0 <= b0 <= 0xF4 && 0x80 <= b1 <= 0xBF && 0x80 <= b2 <= 0xBF && 0x80 <= b3 <= 0xBF
      && (b0 == 0xF0 ==> b1 >= 0x90) && (b0 == 0xF4 ==> b1 <= 0x8F)
      && (b0 - 0xF0) * 262144 + (b1 - 0x80) * 4096 + (b2 - 0x80) * 64 + (b3 - 0x80) == n
  {
    var q := n / 64;
    var r := q / 64;
    assert n == q * 64 + n % 64;
    assert q == r * 64 + q % 64;
    assert r / 64 == n / 262144 && r % 64 == (n / 4096) % 64 && r == n / 4096;
    assert r == (r / 64) * 64 + r % 64;
  }

  /** A character decoded from the front of `b` encodes to exactly the bytes it was read from. */
  lemma EncodeDecodeChar(b: seq<Byte>)
    requires |b| >= 1 && DecodeChar(b).Some?
    ensures EncodeChar(DecodeChar(b).value.0) == b[..DecodeChar(b).value.1]
  {
    var k := DecodeChar(b).value.1;
    if k == 1 {
      assert b[..1] == [b[0]];
    } else if k == 2 {
      TwoByteValue(b[0], b[1]);
      assert b[..2] == [b[0], b[1]];
    } else if k == 3 {
      ThreeByteValue(b[0], b[1], b[2]);
      assert b[..3] == [b[0], b[1], b[2]];
    } else {
      FourByteValue(b[0], b[1], b[2], b[3]);
      assert b[..4] == [b[0], b[1], b[2], b[3]];
    }
  }

  lemma TwoByteValue(b0: int, b1: int)
    requires 0xC2 <= b0 <= 0xDF && 0x80 <= b1 <= 0xBF
    ensures var n := (b0 - 0xC0) * 64 + (b1 - 0x80);
      0x80 <= n < 0x800 && n / 64 == b0 - 0xC0 && n % 64 == b1 - 0x80
  {
  }

  lemma ThreeByteValue(b0: int, b1: int, b2: int)
    requires 0xE0 <= b0 <= 0xEF && 0x80 <= b1 <= 0xBF && 0x80 <= b2 <= 0xBF
    requires (b0 == 0xE0 ==> b1 >= 0xA0) && (b0 == 0xED ==> b1 <= 0x9F)
    ensures var n := (b0 - 0xE0) * 4096 + (b1 - 0x80) * 64 + (b2 - 0x80);
      && 0x800 <= n < 0x1_0000
      && n / 4096 == b0 - 0xE0 && (n / 64) % 64 == b1 - 0x80 && n % 64 == b2 - 0x80
  {
    var low := (b1 - 0x80) * 64 + (b2 - 0x80);
    var n := (b0 - 0xE0) * 4096 + low;
    assert 0 <= low < 4096;
    assert n / 4096 == b0 - 0xE0 && n % 4096 == low;
    assert n / 64 == (b0 - 0xE0) * 64 + (b1 - 0x80) && n % 64 == b2 - 0x80;
  }

  lemma FourByteValue(b0: int, b1: int, b2: int, b3: int)
    requires 0xF0 <= b0 <= 0xF4 && 0x80 <= b1 <= 0xBF && 0x80 <= b2 <= 0xBF && 0x80 <= b3 <= 0xBF
    requires (b0 == 0xF0 ==> b1 >= 0x90) && (b0 == 0xF4 ==> b1 <= 0x8F)
    ensures var n := (b0 - 0xF0) * 262144 + (b1 - 0x80) * 4096 + (b2 - 0x80) * 64 + (b3 - 0x80);
      && 0x1_0000 <= n < 0x11_0000
      && n / 262144 == b0 - 0xF0 && (n / 4096) % 64 == b1 - 0x80
      && (n / 64) % 64 == b2 - 0x80 && n % 64 == b3 - 0x80
  {
    var low := (b2 - 0x80) * 64 + (b3 - 0x80);
    var t := (b1 - 0x80) * 4096 + low;
    var n := (b0 - 0xF0) * 262144 + t;
    assert 0 <= low < 4096 && 0 <= t < 262144;
    assert n / 262144 == b0 - 0xF0 && n % 262144 == t;
    assert n / 4096 == (b0 - 0xF0) * 64 + (b1 - 0x80) && n % 4096 == low;
    assert n / 64 == ((b0 - 0xF0) * 64 + (b1 - 0x80)) * 64 + (b2 - 0x80);
  }

  lemma {:induction false} DecodeEncode(s: string)
    ensures Decode(Encode(s)) == Some(s)
  {
    if s != [] {
      var e := Encode(s);
      var k := |EncodeChar(s[0])|;
      DecodeEncodeChar(s[0], Encode(s[1..]));
      assert e[k..] == Encode(s[1..]);
      DecodeEncode(s[1..]);
      assert Decode(e) == Some([s[0]] + s[1..]);
      assert [s[0]] + s[1..] == s;
    }
  }

  lemma {:induction false} EncodeDecode(b: seq<Byte>)
    requires Decode(b).Some?
    ensures Encode(Decode(b).value) == b
    decreases |b|
  {
    if b != [] {
      var c, k := DecodeChar(b).value.0, DecodeChar(b).value.1;
      var rest := Decode(b[k..]).value;
      var s := [c] + rest;
      assert Decode(b) == Some(s);
      EncodeDecodeChar(b);
      EncodeDecode(b[k..]);
      assert s[0] == c && s[1..] == rest;
      assert Encode(s) == EncodeChar(c) + Encode(rest);
      assert b == b[..k] + b[k..];
    }
  }

  /**
    Decoding is the inverse of encoding: `b` decodes to `s` exactly when `s`
    encodes to `b`, and decoding fails exactly when no string encodes to `b`.
   */
  lemma DecodeIsInverse(b: seq<Byte>, s: string)
    ensures Decode(b) == Some(s) <==> Encode(s) == b
  {
    if Decode(b) == Some(s) {
      EncodeDecode(b);
    }
    if Encode(s) == b {
      DecodeEncode(s);
    }
  }

  lemma DecodeFailsExactlyOnNonEncodings(b: seq<Byte>)
    ensures Decode(b).None? <==> forall s :: Encode(s) != b
  {
    if Decode(b).Some? {
      EncodeDecode(b);
    }
    forall s | Encode(s) == b ensures Decode(b).Some? {
      DecodeEncode(s);
    }
  }
}
