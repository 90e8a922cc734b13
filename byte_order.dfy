/**
  Reading a short byte string as an unsigned 64-bit number, big-endian (first
  byte most significant) or little-endian (first byte least significant). The
  two loops work the way the formatter's UInt64 accumulator does, with the
  UInt64 shift and or written out; each is proved to compute the closed-form
  sum of its byte order.
 */
module ByteOrder {
  import opened Bits

  /** Σ b[i]·256^(L-1-i): the first byte carries the highest weight. */
  function BigEndianValue(bytes: seq<Byte>): (n: nat)
    ensures n < Pow(256, |bytes|)
  {
    if bytes == [] then 0
    else
      var rest := BigEndianValue(bytes[1..]);
      TopByteBound(bytes[0], rest, Pow(256, |bytes| - 1));
      bytes[0] * Pow(256, |bytes| - 1) + rest
  }

  /** Σ b[i]·256^i: the first byte carries the lowest weight. */
  function LittleEndianValue(bytes: seq<Byte>): (n: nat)
    ensures n < Pow(256, |bytes|)
  {
    if bytes == [] then 0
    else
      var k := |bytes| - 1;
      var rest := LittleEndianValue(bytes[..k]);
      TopByteBound(bytes[k], rest, Pow(256, k));
      rest + bytes[k] * Pow(256, k)
  }

  /** A byte above a value that fits below its own weight stays below the next weight. */
  lemma TopByteBound(b: nat, rest: nat, w: nat)
    requires b < 256 && rest < w
    ensures b * w + rest < 256 * w
  {
    assert b * w <= 255 * w;
  }

  /** The bytes in the opposite order. */
  function Reverse(bytes: seq<Byte>): (r: seq<Byte>)
    ensures |r| == |bytes|
    ensures forall i :: 0 <= i < |bytes| ==> r[i] == bytes[|bytes| - 1 - i]
  {
    if bytes == [] then [] else [bytes[|bytes| - 1]] + Reverse(bytes[..|bytes| - 1])
  }

  /** Appending a byte shifts the big-endian value up by one byte: the accumulator step. */
  lemma {:induction false} BigEndianAppend(bytes: seq<Byte>, b: Byte)
    ensures BigEndianValue(bytes + [b]) == BigEndianValue(bytes) * 256 + b
  {
    if bytes != [] {
      var s := bytes + [b];
      assert s[1..] == bytes[1..] + [b];
      BigEndianAppend(bytes[1..], b);
      var w := Pow(256, |bytes| - 1);
      assert Pow(256, |bytes|) == 256 * w;
      ShiftUpArith(bytes[0], w, BigEndianValue(bytes[1..]), b);
    }
  }

  lemma ShiftUpArith(x: nat, w: nat, y: nat, b: nat)
    ensures x * (256 * w) + (y * 256 + b) == (x * w + y) * 256 + b
  {
  }

  /** Little-endian is big-endian read from the other end. */
  lemma {:induction false} LittleEndianIsReversedBigEndian(bytes: seq<Byte>)
    ensures LittleEndianValue(bytes) == BigEndianValue(Reverse(bytes))
  {
    if bytes != [] {
      var k := |bytes| - 1;
      LittleEndianIsReversedBigEndian(bytes[..k]);
      assert Reverse(bytes)[1..] == Reverse(bytes[..k]);
    }
  }

  /** The big-endian accumulation loop: `number = (number << 8) | byte` for each byte in order. */
  method ReadBigEndian(data: seq<Byte>) returns (number: nat)
    requires |data| <= 8
    ensures number == BigEndianValue(data)
  {
    number := 0;
    for i := 0 to |data|
      invariant number == BigEndianValue(data[..i])
    {
      assert data[..i + 1] == data[..i] + [data[i]];
      BigEndianAppend(data[..i], data[i]);
      ShiftAccumulator(number, i);
      BitOrDisjoint(number, 8, data[i]);
      number := BitOr(ShiftLeft(number, 8), data[i]);
    }
    assert data[..|data|] == data;
  }

  /** The little-endian accumulation loop: `number |= byte << (i * 8)` for each byte at index i. */
  method ReadLittleEndian(data: seq<Byte>) returns (number: nat)
    requires |data| <= 8
    ensures number == LittleEndianValue(data)
  {
    number := 0;
    for i := 0 to |data|
      invariant number == LittleEndianValue(data[..i])
    {
      assert data[..i + 1][..i] == data[..i];
      ShiftByte(data[i], i);
      BitOrDisjoint(data[i], 8 * i, number);
      number := BitOr(number, ShiftLeft(data[i], i * 8));
    }
    assert data[..|data|] == data;
  }

  /** A value below 256^i, for i < 8, shifted left by 8 bits is multiplied by 256 and stays below 2^64. */
  lemma ShiftAccumulator(x: nat, i: nat)
    requires i < 8 && x < Pow(256, i)
    ensures ShiftLeft(x, 8) == x * 256 && x * 256 < Pow(256, i + 1)
  {
    PowBytes(1);
    assert Pow(256, 1) == 256;
    assert Pow(256, i + 1) == 256 * Pow(256, i);
    Pow256Eight();
    PowMonotone(256, i + 1, 8);
  }

  /** A byte shifted left by 8i bits, i < 8, is the byte times 256^i, and stays below 256^(i+1). */
  lemma ShiftByte(b: nat, i: nat)
    requires i < 8 && b < 256
    ensures ShiftLeft(b, 8 * i) == b * Pow(256, i) && b * Pow(256, i) < Pow(256, i + 1)
    ensures Pow(2, 8 * i) == Pow(256, i)
  {
    PowBytes(i);
    TopByteBound(b, 0, Pow(256, i));
    assert Pow(256, i + 1) == 256 * Pow(256, i);
    Pow256Eight();
    PowMonotone(256, i + 1, 8);
  }

  /**
    The number the formatter reads from data of 1, 2, 4 or 8 bytes: mode 1 is
    big-endian, mode 2 little-endian, and any other mode leaves it 0.
   */
  function DetectedNumber(data: seq<Byte>, mode: int): (n: nat)
    ensures n < Pow(256, |data|)
    ensures mode !in {1, 2} ==> n == 0
  {
    if mode == 1 then BigEndianValue(data)
    else if mode == 2 then LittleEndianValue(data)
    else 0
  }

  /** The accumulator with its switch on the detection mode. */
  method DetectNumber(data: seq<Byte>, mode: int) returns (number: nat)
    requires |data| <= 8
    ensures number == DetectedNumber(data, mode)
    ensures number < Pow(256, |data|)
  {
    number := 0;
    if mode == 1 {
      number := ReadBigEndian(data);
    } else if mode == 2 {
      number := ReadLittleEndian(data);
    }
  }
}
