/**
  The property value transformer of IOBrowser's inspector: it turns one leaf
  of a property list into the text shown for it, steered by three integer
  display preferences.
 */
module PropertyValueTransformer {
  import opened Wrappers
  import opened Bits
  import opened Numerals
  import opened ByteOrder
  import Base64
  import Utf8

  /**
    What the transformer is handed. `NotANode` is anything that is not a
    property-list node. For a node, the constructor says what its property
    list holds, after the CoreFoundation type queries: a boolean, a signed
    integer of `byteSize` bytes, a floating-point number, some other number,
    binary data, or anything else. Texts the formatter takes over unchanged
    from Foundation are carried along: a number's `description`, the `%a`
    rendering of a float (`hexFloat`), the `description` of data, and `text`,
    the node's own display value.
   */
  datatype Leaf =
    | NotANode
    | Bool(b: bool)
    | SInt(byteSize: nat, value: int)
    | Float(description: string, hexFloat: string)
    | OtherNumber(description: string)
    | Data(bytes: seq<Byte>, description: string, text: string)
    | Other(text: string)

  /**
    The display preferences, with their raw integer codes.
    numberDisplayMode: 0 decimal, anything else hexadecimal.
    detectNumbersInData: 0 off, 1 big-endian, 2 little-endian.
    dataDisplayMode: 1 Base 64, 2 hex string, 3 UTF-8, anything else description.
   */
  datatype Options = Options(numberDisplayMode: int, detectNumbersInData: int, dataDisplayMode: int)

  const INVALID_UTF8: string := "<invalid UTF-8 data>"

  /** The data lengths that may be read as a number. */
  predicate IsNumberSize(n: nat) { n == 1 || n == 2 || n == 4 || n == 8 }

  /** A signed integer as CoreFoundation stores it: 1, 2, 4 or 8 bytes, in range for its size. */
  predicate IsSignedInteger(byteSize: nat, value: int) {
    IsNumberSize(byteSize) && -(Pow(2, 8 * byteSize - 1) as int) <= value < Pow(2, 8 * byteSize - 1)
  }

  /** `uint64Value` of a signed integer: its value modulo 2^64, the 64-bit two's-complement pattern. */
  function UInt64Value(value: int): (u: nat)
    ensures u < UINT64_LIMIT
    ensures 0 <= value < UINT64_LIMIT ==> u == value
    ensures -(UINT64_LIMIT as int) <= value < 0 ==> u == value + UINT64_LIMIT
  {
    value % UINT64_LIMIT
  }

  /** The display text of a leaf; None (nil) exactly when the input is not a node. */
  function Format(v: Leaf, opts: Options): (r: Option<string>)
    ensures r.None? <==> v.NotANode?
  {
    match v
    case NotANode => None
    case Bool(b) => Some(if b then "true" else "false")
    case SInt(byteSize, value) =>
      if opts.numberDisplayMode == 0 then Some(SignedDecimalText(value))
      else Some("0x" + FormatHex(UInt64Value(value), byteSize * 2))
    case Float(description, hexFloat) =>
      if opts.numberDisplayMode == 0 then Some(description) else Some("0x" + hexFloat)
    case OtherNumber(description) => Some(description)
    case Data(bytes, description, text) =>
      if |bytes| > 0 then Some(FormatData(bytes, description, opts)) else Some(text)
    case Other(text) => Some(text)
  }

  /** Non-empty data: read as a number when detection is on and the length allows, else displayed by mode. */
  function FormatData(bytes: seq<Byte>, description: string, opts: Options): (r: string)
    requires |bytes| > 0
    ensures opts.detectNumbersInData != 0 && IsNumberSize(|bytes|) && opts.numberDisplayMode == 0 ==>
      |r| >= 1 && IsNumeral(r, 10) && (r[0] == '0' ==> r == "0")
    ensures opts.detectNumbersInData != 0 && IsNumberSize(|bytes|) && opts.numberDisplayMode != 0 ==>
      |r| == 2 + 2 * |bytes| && r[..2] == "0x" && IsUpperHex(r[2..])
  {
    if opts.detectNumbersInData != 0 && IsNumberSize(|bytes|) then
      var number := DetectedNumber(bytes, opts.detectNumbersInData);
      if opts.numberDisplayMode == 0 then
        DecimalTextMeaning(number);
        DecimalText(number)
      else
        PowBytes(|bytes|);
        FormatHexMeaning(number, |bytes| * 2);
        "0x" + FormatHex(number, |bytes| * 2)
    else DisplayData(bytes, description, opts.dataDisplayMode)
  }

  /** Data that is not read as a number, shown as `dataDisplayMode` says. */
  function DisplayData(bytes: seq<Byte>, description: string, mode: int): (r: string)
    ensures mode == 1 ==> |r| == 4 * ((|bytes| + 2) / 3)
    ensures mode == 2 ==> |r| == 2 + 2 * |bytes| && r[..2] == "0x" && IsUpperHex(r[2..])
    ensures mode == 3 ==> (Utf8.Decode(bytes).None? ==> r == INVALID_UTF8)
    ensures mode == 3 && Utf8.Decode(bytes).Some? ==> Utf8.Encode(r) == bytes
    ensures mode !in {1, 2, 3} ==> r == description
  {
    if mode == 1 then Base64.Encode(bytes)
    else if mode == 2 then
      assert ("0x" + HexString(bytes))[2..] == HexString(bytes);
      "0x" + HexString(bytes)
    else if mode == 3 then
      var text := Utf8.Decode(bytes);
      if text.Some? then Utf8.EncodeDecode(bytes); text.value else INVALID_UTF8
    else description
  }

  /** The transformer is one-way: display text is never turned back into a value. */
  function AllowsReverseTransformation(): (allowed: bool)
    ensures !allowed
  {
    false
  }

  // ---------------------------------------------------------------------------
  // Numbers

  /** A boolean shows as "true" or "false" according to its value, whatever the options. */
  lemma BooleanText(b: bool, opts: Options, other: Options)
    ensures Format(Bool(b), opts) == Some("true") <==> b
    ensures Format(Bool(b), opts) == Some("false") <==> !b
    ensures Format(Bool(b), opts) == Format(Bool(b), other)
  {
  }

  /**
    In decimal mode a signed integer shows as its signed decimal text: a minus
    sign exactly for negatives, then the canonical digits of the magnitude,
    reading back as the value.
  */
  lemma SignedIntegerDecimal(byteSize: nat, value: int, opts: Options)
    requires opts.numberDisplayMode == 0
    ensures Format(SInt(byteSize, value), opts).Some?
    ensures var t := Format(SInt(byteSize, value), opts).value;
      && ParseSignedDecimal(t) == value && (t[0] == '-' <==> value < 0)
    ensures var t := Format(SInt(byteSize, value), opts).value;
      var d := if value < 0 then t[1..] else t;
      && |d| >= 1 && IsNumeral(d, 10) && (d[0] == '0' ==> d == "0")
      && (value < 0 ==> t == "-" + DecimalText(-value))
  {
    SignedDecimalTextMeaning(value);
  }

  /**
    In hexadecimal mode a signed integer shows as "0x" and the upper-case hex
    digits of its 64-bit pattern, zero-padded to at least two digits per byte:
    exactly that many when the value is non-negative and fits its size, all
    sixteen when it is negative.
   */
  lemma SignedIntegerHex(byteSize: nat, value: int, opts: Options)
    requires opts.numberDisplayMode != 0
    ensures var r := Format(SInt(byteSize, value), opts);
      && r.Some? && |r.value| >= 2 && r.value[..2] == "0x"
      && IsUpperHex(r.value[2..]) && |r.value[2..]| >= 2 * byteSize
      && ParseNumeral(r.value[2..], 16) == UInt64Value(value)
    ensures byteSize >= 1 && 0 <= value < Pow(256, byteSize) ==>
      |Format(SInt(byteSize, value), opts).value| == 2 + 2 * byteSize
    ensures IsSignedInteger(byteSize, value) && value < 0 ==>
      |Format(SInt(byteSize, value), opts).value| == 2 + 16
  {
    var u := UInt64Value(value);
    var d := FormatHex(u, byteSize * 2);
    assert Format(SInt(byteSize, value), opts) == Some("0x" + d);
    Prefixed(d);
    assert IsUpperHex(d) && |d| >= 2 * byteSize && ParseNumeral(d, 16) == u by {
      FormatHexMeaning(u, byteSize * 2);
    }
    if byteSize >= 1 && 0 <= value < Pow(256, byteSize) {
      FitsItsSize(byteSize, value);
    }
    if IsSignedInteger(byteSize, value) && value < 0 {
      NegativeIsSixteenDigits(byteSize, value);
    }
  }

  /** A non-negative value below 256^byteSize keeps its own value as a UInt64 and has 2·byteSize digits. */
  lemma FitsItsSize(byteSize: nat, value: int)
    requires byteSize >= 1 && 0 <= value < Pow(256, byteSize)
    ensures |FormatHex(UInt64Value(value), byteSize * 2)| == 2 * byteSize
  {
    PowBytes(byteSize);
    if byteSize <= 8 {
      Pow256Eight();
      PowMonotone(256, byteSize, 8);
      assert UInt64Value(value) == value;
    } else {
      PowMonotone(256, 8, byteSize);
      Pow256Eight();
      assert UInt64Value(value) < Pow(256, byteSize);
    }
    FormatHexMeaning(UInt64Value(value), byteSize * 2);
  }

  lemma LastPair(h: string, L: nat)
    requires L >= 1 && |h| == 2 * L
    ensures h[|h| - 2..] == h[2 * (L - 1)..2 * (L - 1) + 2]
  {
  }

  /** The parts of a text that starts with "0x". */
  lemma Prefixed(h: string)
    ensures |"0x" + h| == 2 + |h| && ("0x" + h)[..2] == "0x" && ("0x" + h)[2..] == h
    ensures |h| >= 2 ==> ("0x" + h)[2..4] == h[..2] && ("0x" + h)[|h|..] == h[|h| - 2..]
  {
  }

  /** A negative signed integer's 64-bit pattern has sixteen hex digits. */
  lemma NegativeIsSixteenDigits(byteSize: nat, value: int)
    requires IsSignedInteger(byteSize, value) && value < 0
    ensures |FormatHex(UInt64Value(value), byteSize * 2)| == 16
  {
    var u := UInt64Value(value);
    assert Pow(2, 8 * byteSize - 1) <= 0x8000_0000_0000_0000 by {
      PowMonotone(2, 8 * byteSize - 1, 63);
      PowSixtyFour();
    }
    assert u >= 0x8000_0000_0000_0000;
    assert Pow(16, 15) <= u < Pow(16, 16) by {
      PowSixtyFour();
    }
    HexLength(u, 16);
  }

  /** A floating-point number shows its description in decimal mode, else "0x" before its `%a` text. */
  lemma FloatText(description: string, hexFloat: string, opts: Options)
    ensures opts.numberDisplayMode == 0 ==> Format(Float(description, hexFloat), opts) == Some(description)
    ensures opts.numberDisplayMode != 0 ==> Format(Float(description, hexFloat), opts) == Some("0x" + hexFloat)
  {
  }

  /** When the `%a` text starts with "0x", the hexadecimal text of a float starts with "0x0x". */
  lemma FloatHexDoublesPrefix(description: string, hexFloat: string, opts: Options)
    requires opts.numberDisplayMode != 0 && |hexFloat| >= 2 && hexFloat[..2] == "0x"
    ensures Format(Float(description, hexFloat), opts).value[..4] == "0x0x"
  {
  }

  /** Any other kind of number shows its description, whatever the options. */
  lemma OtherNumberText(description: string, opts: Options)
    ensures Format(OtherNumber(description), opts) == Some(description)
  {
  }

  // ---------------------------------------------------------------------------
  // Data

  /** Empty data, and anything that is neither a number nor data, shows the node's own text. */
  lemma PassThrough(description: string, text: string, opts: Options)
    ensures Format(Data([], description, text), opts) == Some(text)
    ensures Format(Other(text), opts) == Some(text)
  {
  }

  /**
    Data whose length is not 1, 2, 4 or 8, or met with detection off, never
    reaches a numeric rendering: it is shown as `dataDisplayMode` says.
   */
  lemma UndetectedData(bytes: seq<Byte>, description: string, text: string, opts: Options)
    requires |bytes| > 0 && (opts.detectNumbersInData == 0 || !IsNumberSize(|bytes|))
    ensures Format(Data(bytes, description, text), opts) == Some(DisplayData(bytes, description, opts.dataDisplayMode))
  {
  }

  /** An unknown detection mode leaves the accumulator at zero: "0", or "0x" and two zeros per byte. */
  lemma UnknownDetectionIsZero(bytes: seq<Byte>, description: string, text: string, opts: Options)
    requires IsNumberSize(|bytes|)
    requires opts.detectNumbersInData !in {0, 1, 2}
    ensures opts.numberDisplayMode == 0 ==> Format(Data(bytes, description, text), opts) == Some("0")
    ensures opts.numberDisplayMode != 0 ==>
      Format(Data(bytes, description, text), opts) == Some("0x" + Zeros(2 * |bytes|))
  {
    assert Numeral(0, 16) == "0";
    assert Zeros(2 * |bytes| - 1) + "0" == Zeros(2 * |bytes|);
  }

  /** Detected numbers in decimal mode show as the decimal text of the big- or little-endian value. */
  lemma DetectedDecimal(bytes: seq<Byte>, description: string, text: string, opts: Options)
    requires IsNumberSize(|bytes|) && opts.detectNumbersInData in {1, 2}
    requires opts.numberDisplayMode == 0
    ensures var r := Format(Data(bytes, description, text), opts).value;
      && |r| >= 1 && IsNumeral(r, 10) && (r[0] == '0' ==> r == "0")
      && ParseNumeral(r, 10) == if opts.detectNumbersInData == 1 then BigEndianValue(bytes) else LittleEndianValue(bytes)
  {
    DecimalTextMeaning(DetectedNumber(bytes, opts.detectNumbersInData));
  }

  /** Exactly 2L hex digits of a big-endian value are the bytes' own digit pairs, in order. */
  lemma {:induction false} BigEndianHexDigits(bytes: seq<Byte>)
    ensures FixedHex(BigEndianValue(bytes), 2 * |bytes|) == HexString(bytes)
    decreases |bytes|
  {
    if bytes != [] {
      var k := |bytes| - 1;
      var p, x := bytes[..k], bytes[k];
      assert bytes == p + [x];
      BigEndianAppend(p, x);
      HexStringAppend(p, x);
      BigEndianHexDigits(p);
      FixedHexAppendByte(BigEndianValue(p), x, k);
    }
  }

  /** Appending a byte to a number appends that byte's digit pair to its fixed-width hex digits. */
  lemma FixedHexAppendByte(m: nat, x: Byte, k: nat)
    ensures FixedHex(m * 256 + x, 2 * k + 2) == FixedHex(m, 2 * k) + HexByte(x)
  {
    var n := m * 256 + x;
    var hi := m * 16 + x / 16;
    assert n / 16 == hi && n % 16 == x % 16;
    assert hi / 16 == m && hi % 16 == x / 16;
    calc {
      FixedHex(n, 2 * k + 2);
      FixedHex(hi, 2 * k + 1) + [DigitChar(x % 16)];
      FixedHex(m, 2 * k) + [DigitChar(x / 16)] + [DigitChar(x % 16)];
    }
  }

  /** `%0*llX` of a value read from L bytes, with width 2L, writes exactly 2L digits. */
  lemma DetectedHexIsFixed(bytes: seq<Byte>, n: nat)
    requires |bytes| >= 1 && n < Pow(256, |bytes|)
    ensures FormatHex(n, |bytes| * 2) == FixedHex(n, 2 * |bytes|)
  {
    PowBytes(|bytes|);
    FormatHexIsFixed(n, 2 * |bytes|);
  }

  /** Detected numbers in hexadecimal mode show as "0x" and `%0*llX` of the value with width 2L. */
  lemma DetectedHexText(bytes: seq<Byte>, description: string, text: string, opts: Options)
    requires IsNumberSize(|bytes|) && opts.detectNumbersInData != 0
    requires opts.numberDisplayMode != 0
    ensures Format(Data(bytes, description, text), opts)
      == Some("0x" + FormatHex(DetectedNumber(bytes, opts.detectNumbersInData), |bytes| * 2))
  {
  }

  /**
    Big-endian detection in hexadecimal mode shows "0x" and exactly 2L digits:
    the bytes' digit pairs in order, so the first pair is the first byte and
    the digits read back as the accumulated value.
   */
  lemma DetectedHexBigEndian(bytes: seq<Byte>, description: string, text: string, opts: Options)
    requires IsNumberSize(|bytes|) && opts.detectNumbersInData == 1
    requires opts.numberDisplayMode != 0
    ensures Format(Data(bytes, description, text), opts) == Some("0x" + HexString(bytes))
    ensures var r := Format(Data(bytes, description, text), opts).value;
      && |r| == 2 + 2 * |bytes| && IsUpperHex(r[2..])
      && ParseNumeral(r[2..], 16) == BigEndianValue(bytes)
      && r[2..4] == HexByte(bytes[0])
  {
    var n := BigEndianValue(bytes);
    var h := FormatHex(n, |bytes| * 2);
    DetectedHexText(bytes, description, text, opts);
    DetectedHexIsFixed(bytes, n);
    BigEndianHexDigits(bytes);
    assert h == HexString(bytes);
    FormatHexMeaning(n, |bytes| * 2);
    HexStringAt(bytes, 0);
    Prefixed(h);
    assert h[..2] == h[0..2];
  }

  /**
    Little-endian detection in hexadecimal mode shows "0x" and exactly 2L
    digits: the bytes' digit pairs in reverse order, so the last pair is the
    first byte and the digits read back as the accumulated value.
   */
  lemma DetectedHexLittleEndian(bytes: seq<Byte>, description: string, text: string, opts: Options)
    requires IsNumberSize(|bytes|) && opts.detectNumbersInData == 2
    requires opts.numberDisplayMode != 0
    ensures Format(Data(bytes, description, text), opts) == Some("0x" + HexString(Reverse(bytes)))
    ensures var r := Format(Data(bytes, description, text), opts).value;
      && |r| == 2 + 2 * |bytes| && IsUpperHex(r[2..])
      && ParseNumeral(r[2..], 16) == LittleEndianValue(bytes)
      && r[|r| - 2..] == HexByte(bytes[0])
  {
    var n := LittleEndianValue(bytes);
    var L := |bytes|;
    var h := FormatHex(n, L * 2);
    DetectedHexText(bytes, description, text, opts);
    DetectedHexIsFixed(bytes, n);
    LittleEndianIsReversedBigEndian(bytes);
    BigEndianHexDigits(Reverse(bytes));
    assert h == HexString(Reverse(bytes));
    FormatHexMeaning(n, L * 2);
    HexStringAt(Reverse(bytes), L - 1);
    Prefixed(h);
    assert |h| == 2 * L;
    LastPair(h, L);
  }

  /** Hex-string mode shows "0x" and two upper-case digits per byte, which read back as the bytes. */
  lemma HexStringMode(bytes: seq<Byte>, description: string, text: string, opts: Options)
    requires |bytes| > 0 && (opts.detectNumbersInData == 0 || !IsNumberSize(|bytes|))
    requires opts.dataDisplayMode == 2
    ensures var r := Format(Data(bytes, description, text), opts).value;
      && |r| == 2 + 2 * |bytes| && r[..2] == "0x" && IsUpperHex(r[2..])
      && HexPairsToBytes(r[2..]) == bytes
  {
    var r := Format(Data(bytes, description, text), opts).value;
    assert r[2..] == HexString(bytes);
    HexPairsOfHexString(bytes);
  }

  /** Base 64 mode shows 4 characters per started group of 3 bytes, which decode back to the bytes. */
  lemma Base64Mode(bytes: seq<Byte>, description: string, text: string, opts: Options)
    requires |bytes| > 0 && (opts.detectNumbersInData == 0 || !IsNumberSize(|bytes|))
    requires opts.dataDisplayMode == 1
    ensures var r := Format(Data(bytes, description, text), opts).value;
      && |r| == 4 * ((|bytes| + 2) / 3) && Base64.Decode(r) == Some(bytes)
  {
    Base64.DecodeEncode(bytes);
  }

  /**
    UTF-8 mode shows the text the bytes encode when there is one, and exactly
    "<invalid UTF-8 data>" when no text encodes to them.
   */
  lemma Utf8Mode(bytes: seq<Byte>, description: string, text: string, opts: Options, s: string)
    requires |bytes| > 0 && (opts.detectNumbersInData == 0 || !IsNumberSize(|bytes|))
    requires opts.dataDisplayMode == 3
    ensures Utf8.Encode(s) == bytes ==> Format(Data(bytes, description, text), opts) == Some(s)
    ensures (forall t :: Utf8.Encode(t) != bytes) ==>
      Format(Data(bytes, description, text), opts) == Some(INVALID_UTF8)
  {
    Utf8.DecodeIsInverse(bytes, s);
    Utf8.DecodeFailsExactlyOnNonEncodings(bytes);
  }

  /** Any other data display mode shows Foundation's description of the data. */
  lemma DescriptionMode(bytes: seq<Byte>, description: string, text: string, opts: Options)
    requires |bytes| > 0 && (opts.detectNumbersInData == 0 || !IsNumberSize(|bytes|))
    requires opts.dataDisplayMode !in {1, 2, 3}
    ensures Format(Data(bytes, description, text), opts) == Some(description)
  {
  }

  // ---------------------------------------------------------------------------
  // Worked cases

  /** A 2-byte integer 255 in hexadecimal mode shows as "0x00FF". */
  lemma ExampleShortHex(opts: Options)
    requires opts.numberDisplayMode != 0
    ensures Format(SInt(2, 255), opts) == Some("0x00FF")
  {
    assert Numeral(15, 16) == "F";
    assert Numeral(255, 16) == "FF";
    assert UInt64Value(255) == 255;
    assert Zeros(2) == "00";
    assert FormatHex(255, 4) == "00" + "FF" == "00FF";
    assert Format(SInt(2, 255), opts) == Some("0x" + FormatHex(UInt64Value(255), 4));
    assert "0x" + "00FF" == "0x00FF";
  }

  /** The bytes 01 02 03 04 read big-endian show in decimal as "16909060". */
  lemma ExampleBigEndianDecimal(description: string, text: string)
    ensures Format(Data([1, 2, 3, 4], description, text), Options(0, 1, 0)) == Some("16909060")
  {
    assert BigEndianValue([1, 2, 3, 4]) == 16909060 by {
      assert [1, 2] == [1] + [2] && [1, 2, 3] == [1, 2] + [3] && [1, 2, 3, 4] == [1, 2, 3] + [4];
      assert BigEndianValue([1]) == 1 by { assert Pow(256, 0) == 1; }
      BigEndianAppend([1], 2);
      BigEndianAppend([1, 2], 3);
      BigEndianAppend([1, 2, 3], 4);
    }
    DecimalOf16909060();
  }

  lemma DecimalOf16909060()
    ensures DecimalText(16909060) == "16909060"
  {
    assert Numeral(1, 10) == "1";
    assert Numeral(16, 10) == "16";
    assert Numeral(169, 10) == "169";
    assert Numeral(1690, 10) == "1690";
    assert Numeral(16909, 10) == "16909";
    assert Numeral(169090, 10) == "169090";
    assert Numeral(1690906, 10) == "1690906";
    assert Numeral(16909060, 10) == "16909060";
  }

  /** The bytes 01 02 03 04 read little-endian show in decimal as "67305985". */
  lemma ExampleLittleEndianDecimal(description: string, text: string)
    ensures Format(Data([1, 2, 3, 4], description, text), Options(0, 2, 0)) == Some("67305985")
  {
    assert LittleEndianValue([1, 2, 3, 4]) == 67305985 by {
      assert [1, 2, 3, 4][..3] == [1, 2, 3] && [1, 2, 3][..2] == [1, 2] && [1, 2][..1] == [1];
      assert Pow(256, 1) == 256 && Pow(256, 2) == 65536 && Pow(256, 3) == 16777216;
    }
    assert Numeral(6, 10) == "6";
    assert Numeral(67, 10) == "67";
    assert Numeral(673, 10) == "673";
    assert Numeral(6730, 10) == "6730";
    assert Numeral(67305, 10) == "67305";
    assert Numeral(673059, 10) == "673059";
    assert Numeral(6730598, 10) == "6730598";
    assert Numeral(67305985, 10) == "67305985";
  }

  /** Empty data in hex-string mode shows the node's own text, not "0x". */
  lemma ExampleEmptyHexString(description: string, text: string)
    ensures Format(Data([], description, text), Options(0, 0, 2)) == Some(text)
  {
  }
}
