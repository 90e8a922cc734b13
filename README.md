# IOBrowser property value transformer, in Dafny

IOBrowser shows the I/O Registry of a Mac as a tree of property lists. Each
leaf of a property list (a boolean, a number, binary data, a string, a date…)
is turned into one line of display text by `PropertyValueTransformer`. Three
integer preferences steer that text:

- `numberDisplayMode`: 0 shows numbers in decimal, any other value in hexadecimal.
- `detectNumbersInData`: 0 is off, 1 reads data of 1, 2, 4 or 8 bytes as a big-endian number, 2 as a little-endian number.
- `dataDisplayMode`: 1 shows data as Base 64, 2 as a hex string, 3 as UTF-8 text; any other value shows the data's description.

The model makes the transformer a pure function,
`PropertyValueTransformer.Format(v: Leaf, opts: Options): Option<string>`.
`Leaf` replaces the run-time type tests of the Swift code with a datatype.
Its constructors are `NotANode`, `Bool`, `SInt(byteSize, value)`, `Float`,
`OtherNumber`, `Data` and `Other`. `Options` carries the three preferences as
their raw integer codes, so the `default:` branches stay reachable.
Texts that Foundation produces and this file does not define travel in the
leaf as given strings:

- a number's `description`;
- the `%a` text of a float;
- the `description` of data;
- the node's own display value (`value.value`).

Files, one module each:

- `wrappers.dfy`: `Option`.
- `bits.dfy`: powers, the `Byte` type, and the UInt64 shift and bitwise or, written out on naturals below 2^64.
- `numerals.dfy`: decimal and upper-case hexadecimal numerals as printf writes them (`%0*llX`, `%02X`), with their parsers.
- `byte_order.dfy`: big- and little-endian values as closed-form sums. The two accumulation loops are methods proved equal to those sums.
- `base64.dfy`: Base 64 encoding and decoding, per section 4 of RFC 4648.
- `utf8.dfy`: UTF-8 encoding and decoding, per sections 3 and 4 of RFC 3629.
- `transformer.dfy`: `Leaf`, `Options`, `Format` and the properties of every branch.

Two behaviours of the code are easy to miss:

- A hexadecimal integer does not always show two digits per byte. The `*` width of `%0*llX` is a minimum, so a negative signed integer shows all 16 digits of its 64-bit two's-complement pattern, whatever its size. `SignedIntegerHex` states both cases.
- In hexadecimal mode the code puts `"0x"` before the `%a` text of a float. When the value is finite and its sign bit is clear, that text starts with `0x`, so the display starts with `0x0x` (`FloatHexDoublesPrefix`). With the sign bit set (a negative value or -0.0) it gives `0x-0x…`. Infinities give `0xinf` or `0x-inf`, and NaN gives `0xnan`.

## Model

| member | source | states |
|---|---|---|
| PropertyValueTransformer.Format | IOBrowser/Classes/PropertyValueTransformer.swift:35-118 | The result is nil exactly when the input is not a property-list node; every node gets a text. |
| PropertyValueTransformer.BooleanText | IOBrowser/Classes/PropertyValueTransformer.swift:43-48 | A boolean shows "true" exactly when it is true and "false" exactly when it is false; the text is the same under any two option sets. |
| PropertyValueTransformer.SignedIntegerDecimal | IOBrowser/Classes/PropertyValueTransformer.swift:49-52 | In decimal mode a signed integer's text reads back as its value and starts with '-' exactly when it is negative. After the sign comes the canonical decimal text of the magnitude: at least one digit, digits only, no leading zero except in "0". |
| PropertyValueTransformer.UInt64Value | IOBrowser/Classes/PropertyValueTransformer.swift:58 | `uint64Value` is below 2^64, equals a non-negative value, and is value + 2^64 for a negative one (two's complement). |
| PropertyValueTransformer.SignedIntegerHex | IOBrowser/Classes/PropertyValueTransformer.swift:55-58 | In hexadecimal mode a signed integer shows "0x" then upper-case hex digits, at least 2·byteSize of them, that read back as its 64-bit pattern. There are exactly 2·byteSize digits when the value is non-negative and fits its size, and 16 digits when it is negative. |
| PropertyValueTransformer.FloatText | IOBrowser/Classes/PropertyValueTransformer.swift:49-61 | A float shows its description in decimal mode and "0x" before its `%a` text otherwise. |
| PropertyValueTransformer.FloatHexDoublesPrefix | IOBrowser/Classes/PropertyValueTransformer.swift:61 | When the `%a` text starts with "0x", the hexadecimal text of the float starts with "0x0x". |
| PropertyValueTransformer.OtherNumberText | IOBrowser/Classes/PropertyValueTransformer.swift:63-64 | A number of any other CoreFoundation type shows its description under every option set. |
| PropertyValueTransformer.PassThrough | IOBrowser/Classes/PropertyValueTransformer.swift:117 | Empty data and any other node value show the node's own text unchanged. |
| PropertyValueTransformer.UndetectedData | IOBrowser/Classes/PropertyValueTransformer.swift:69-114 | Non-empty data with detection off, or whose length is not 1, 2, 4 or 8, never reaches a numeric rendering: it shows as the data display mode says. |
| PropertyValueTransformer.UnknownDetectionIsZero | IOBrowser/Classes/PropertyValueTransformer.swift:71-99 | A detection code other than 0, 1 and 2 on data of 1, 2, 4 or 8 bytes still gives a number, zero: "0" in decimal mode, "0x" and 2L zeros in hexadecimal mode. |
| PropertyValueTransformer.DetectedDecimal | IOBrowser/Classes/PropertyValueTransformer.swift:91-94 | In decimal mode a detected number shows as decimal digits without a leading zero that read back as the big-endian (mode 1) or little-endian (mode 2) value of the bytes. |
| PropertyValueTransformer.BigEndianHexDigits | IOBrowser/Classes/PropertyValueTransformer.swift:77-81 | Exactly 2L hex digits of the big-endian value of L bytes are the bytes' digit pairs in order. |
| PropertyValueTransformer.FixedHexAppendByte | IOBrowser/Classes/PropertyValueTransformer.swift:80 | Shifting a number up by one byte and adding a byte appends that byte's digit pair to its fixed-width hex digits. |
| PropertyValueTransformer.DetectedHexIsFixed | IOBrowser/Classes/PropertyValueTransformer.swift:97-98 | `%0*llX` with width 2L writes exactly 2L digits of any value below 256^L. |
| PropertyValueTransformer.DetectedHexText | IOBrowser/Classes/PropertyValueTransformer.swift:71-99 | With detection on, the length allowed and hexadecimal mode, data shows as "0x" and `%0*llX` of the detected number with width 2L. |
| PropertyValueTransformer.DetectedHexBigEndian | IOBrowser/Classes/PropertyValueTransformer.swift:77-99 | Big-endian detection in hexadecimal mode shows "0x" and the bytes' own digit pairs in order, the same text as hex-string mode. That is 2 + 2L characters, the digits read back as the accumulated value, and the first pair is the first byte. |
| PropertyValueTransformer.DetectedHexLittleEndian | IOBrowser/Classes/PropertyValueTransformer.swift:82-99 | Little-endian detection in hexadecimal mode shows "0x" and the digit pairs of the reversed bytes. That is 2 + 2L characters, the digits read back as the accumulated value, and the last pair is the first byte. |
| PropertyValueTransformer.HexStringMode | IOBrowser/Classes/PropertyValueTransformer.swift:107-108 | Hex-string mode shows "0x" then 2L upper-case hex digits whose pairs decode back to the bytes. |
| PropertyValueTransformer.Base64Mode | IOBrowser/Classes/PropertyValueTransformer.swift:105-106 | Base 64 mode shows 4·⌈L/3⌉ characters that decode back to the bytes. |
| PropertyValueTransformer.Utf8Mode | IOBrowser/Classes/PropertyValueTransformer.swift:109-110 | UTF-8 mode shows s whenever s encodes to the bytes, and exactly "<invalid UTF-8 data>" when no string encodes to them. |
| PropertyValueTransformer.DescriptionMode | IOBrowser/Classes/PropertyValueTransformer.swift:111-112 | Any other data display mode shows the data's description. |
| PropertyValueTransformer.AllowsReverseTransformation | IOBrowser/Classes/PropertyValueTransformer.swift:120-123 | Reverse transformation is never allowed. |
| PropertyValueTransformer.ExampleShortHex | IOBrowser/Classes/PropertyValueTransformer.swift:58 | A 2-byte integer 255 in hexadecimal mode shows "0x00FF". |
| PropertyValueTransformer.ExampleBigEndianDecimal | IOBrowser/Classes/PropertyValueTransformer.swift:77-93 | The bytes 01 02 03 04 read big-endian show "16909060" in decimal mode. |
| PropertyValueTransformer.ExampleLittleEndianDecimal | IOBrowser/Classes/PropertyValueTransformer.swift:82-93 | The bytes 01 02 03 04 read little-endian show "67305985" in decimal mode. |
| PropertyValueTransformer.ExampleEmptyHexString | IOBrowser/Classes/PropertyValueTransformer.swift:69 | Empty data in hex-string mode shows the node's own text, not "0x". |
| ByteOrder.BigEndianValue | IOBrowser/Classes/PropertyValueTransformer.swift:77-81 | Σ b[i]·256^(L-1-i) is below 256^L, so 8 bytes fit a UInt64. |
| ByteOrder.LittleEndianValue | IOBrowser/Classes/PropertyValueTransformer.swift:82-86 | Σ b[i]·256^i is below 256^L, so 8 bytes fit a UInt64. |
| ByteOrder.BigEndianAppend | IOBrowser/Classes/PropertyValueTransformer.swift:80 | Appending a byte multiplies the big-endian value by 256 and adds the byte. |
| ByteOrder.LittleEndianIsReversedBigEndian | IOBrowser/Classes/PropertyValueTransformer.swift:77-86 | The little-endian value of the bytes is the big-endian value of the reversed bytes. |
| ByteOrder.Reverse | IOBrowser/Classes/PropertyValueTransformer.swift:83-85 | The reversed bytes have the same length, with index i holding byte L-1-i. |
| ByteOrder.ReadBigEndian | IOBrowser/Classes/PropertyValueTransformer.swift:77-81 | The loop `number = (number << 8) \| byte` over the bytes in order computes the big-endian sum. |
| ByteOrder.ReadLittleEndian | IOBrowser/Classes/PropertyValueTransformer.swift:82-86 | The loop `number \|= byte << (i * 8)` over the indexed bytes computes the little-endian sum. |
| ByteOrder.DetectNumber | IOBrowser/Classes/PropertyValueTransformer.swift:73-89 | The accumulator with its switch gives the big-endian sum for mode 1, the little-endian sum for mode 2 and 0 otherwise, always below 256^L. |
| Bits.ShiftLeft | IOBrowser/Classes/PropertyValueTransformer.swift:80-85 | A UInt64 left shift stays below 2^64 and is plain multiplication by 2^k when nothing is shifted out. |
| Bits.BitOrDisjoint | IOBrowser/Classes/PropertyValueTransformer.swift:80-85 | Or-ing a multiple of 2^k with a value below 2^k, in either order, is adding them. |
| Bits.BitOrCommutes | IOBrowser/Classes/PropertyValueTransformer.swift:85 | Bitwise or is commutative. |
| Numerals.Numeral | IOBrowser/Classes/PropertyValueTransformer.swift:93 | A shortest numeral has at least one digit, only digits of its base, and starts with '0' exactly when the number is 0. |
| Numerals.ParseNumeralOfNumeral | IOBrowser/Classes/PropertyValueTransformer.swift:93 | Parsing a number's numeral gives the number back. |
| Numerals.HexLength | IOBrowser/Classes/PropertyValueTransformer.swift:58 | A hexadecimal numeral has at most k digits below 16^k and at least k digits from 16^(k-1) up. |
| Numerals.ZeroPad | IOBrowser/Classes/PropertyValueTransformer.swift:58 | The `0` flag pads with zeros on the left up to the field width and never truncates. |
| Numerals.FormatHexMeaning | IOBrowser/Classes/PropertyValueTransformer.swift:98 | `%0*llX` writes upper-case hex digits only, at least the field width of them, exactly the width when the value is below 16^width, and they read back as the value. |
| Numerals.FormatHexIsFixed | IOBrowser/Classes/PropertyValueTransformer.swift:98 | Below 16^width, `%0*llX` writes exactly the width's worth of low digits of the value. |
| Numerals.FixedHexIsPadded | IOBrowser/Classes/PropertyValueTransformer.swift:98 | A fixed number of hex digits is the shortest numeral with leading zeros. |
| Numerals.ParseNumeralIgnoresLeadingZeros | IOBrowser/Classes/PropertyValueTransformer.swift:98 | Leading zeros do not change the value of a numeral. |
| Numerals.HexByteMeaning | IOBrowser/Classes/PropertyValueTransformer.swift:108 | `%02X` of a byte is `%0*llX` with width 2: two upper-case hex digits that read back as the byte. |
| Numerals.HexString | IOBrowser/Classes/PropertyValueTransformer.swift:108 | The joined `%02X` texts have two upper-case hex digits per byte. |
| Numerals.HexPairsOfHexString | IOBrowser/Classes/PropertyValueTransformer.swift:108 | Decoding the digit pairs of a hex string gives the bytes back. |
| Numerals.HexStringAt | IOBrowser/Classes/PropertyValueTransformer.swift:108 | The digit pair at position i of a hex string is the `%02X` of byte i. |
| Numerals.HexStringAppend | IOBrowser/Classes/PropertyValueTransformer.swift:108 | Appending a byte appends its digit pair. |
| Numerals.DecimalTextMeaning | IOBrowser/Classes/PropertyValueTransformer.swift:93 | `UInt64.description` is decimal digits without a leading zero (except "0") and reads back as the number. |
| Numerals.SignedDecimalTextMeaning | IOBrowser/Classes/PropertyValueTransformer.swift:51 | An integer's decimal text starts with '-' exactly when it is negative. It is '-' followed by the decimal text of the magnitude for a negative integer, and the unsigned text otherwise. The magnitude part is canonical (digits only, no leading zero except in "0"), and the whole text reads back as the integer. |
| Numerals.SignedDecimalText | IOBrowser/Classes/PropertyValueTransformer.swift:51 | `NSNumber.description` of an integer is non-empty and starts with '-' exactly when the integer is negative. What follows the sign is decimal digits only and does not start with '0'. |
| Numerals.DecimalText | IOBrowser/Classes/PropertyValueTransformer.swift:93 | `UInt64.description` is at least one decimal digit and starts with '0' exactly when the number is 0. |
| Numerals.FormatHex | IOBrowser/Classes/PropertyValueTransformer.swift:58 | `%0*llX` writes at least one upper-case hex digit and at least the field width of them. A width of 0 or 1 adds no padding. |
| Numerals.HexByte | IOBrowser/Classes/PropertyValueTransformer.swift:108 | `%02X` of a byte is exactly two characters; `HexByteMeaning` shows they are upper-case hex digits that read back as the byte. |
| Bits.BitOr | IOBrowser/Classes/PropertyValueTransformer.swift:80-85 | The bitwise or of two naturals is at least each of them and at most their sum, and its low bit is set exactly when either low bit is. |
| ByteOrder.DetectedNumber | IOBrowser/Classes/PropertyValueTransformer.swift:73-89 | The number detected in the bytes is below 256^L, and is 0 for a detection code other than 1 and 2. |
| PropertyValueTransformer.FormatData | IOBrowser/Classes/PropertyValueTransformer.swift:69-114 | Data read as a number shows canonical decimal digits in decimal mode. In hexadecimal mode it shows exactly "0x" and 2L upper-case hex digits. |
| PropertyValueTransformer.DisplayData | IOBrowser/Classes/PropertyValueTransformer.swift:103-113 | Mode 1 gives 4·⌈L/3⌉ characters. Mode 2 gives "0x" and 2L upper-case hex digits. Mode 3 gives a text that encodes back to exactly the bytes when they are UTF-8, and "<invalid UTF-8 data>" when they are not. Any other code gives the description. |
| Utf8.Decode | IOBrowser/Classes/PropertyValueTransformer.swift:110 | A successful decode has no more characters than there are bytes and is empty exactly when the bytes are. |
| Base64.Encode | IOBrowser/Classes/PropertyValueTransformer.swift:106 | The encoding has 4 characters per started group of 3 bytes. |
| Base64.DecodeEncode | IOBrowser/Classes/PropertyValueTransformer.swift:106 | Decoding an encoding gives the original bytes back. |
| Base64.TripleRoundTrip | IOBrowser/Classes/PropertyValueTransformer.swift:106 | The four sextets of three bytes are below 64, map to alphabet characters and back, and reassemble into the three bytes. |
| Utf8.DecodeEncode | IOBrowser/Classes/PropertyValueTransformer.swift:110 | Decoding the UTF-8 encoding of a string gives the string back. |
| Utf8.EncodeDecode | IOBrowser/Classes/PropertyValueTransformer.swift:110 | Whatever decodes successfully encodes back to exactly the same bytes. |
| Utf8.DecodeIsInverse | IOBrowser/Classes/PropertyValueTransformer.swift:110 | Bytes decode to s exactly when s encodes to those bytes. |
| Utf8.DecodeFailsExactlyOnNonEncodings | IOBrowser/Classes/PropertyValueTransformer.swift:110 | Decoding fails exactly when no string encodes to the bytes. |
| Utf8.DecodeEncodeChar | IOBrowser/Classes/PropertyValueTransformer.swift:110 | The first character of an encoding decodes back and takes exactly its own bytes. |
| Utf8.EncodeDecodeChar | IOBrowser/Classes/PropertyValueTransformer.swift:110 | A character decoded from the front of the bytes encodes to exactly the bytes it was read from. |

## Left out

- Floating-point text: a float's `description` and its `%a` rendering are carried in the leaf as given texts, because floating-point formatting is Foundation's and the C library's.
- `Data.description`: it is carried in the leaf as a given text, because its form is Foundation's and not defined in this file.
- `PropertyListNode` and how its `value` text is computed are not part of this model. That text is a given string in the leaf.
- The `Preferences.shared` singleton: the three preferences are passed in as an `Options` value. Reading them more than once during one call cannot give different values here.
- `transformedValueClass`, the `ValueTransformer` subclassing and the Objective-C bridging: framework plumbing with no logic.
- The CoreFoundation type queries (`CFGetTypeID`, `CFNumberGetType`, `CFNumberGetByteSize`): their outcome is the choice of `Leaf` constructor and its `byteSize`.
- The C variadic call itself: the Swift `Int` width passed for `*` is taken as the field width it denotes.
- ByteOrder.ReadBigEndian: requires at most 8 bytes. The source reaches the loop only for 1, 2, 4 or 8 bytes, so the wrap-around of longer data is not stated.
- ByteOrder.ReadLittleEndian: requires at most 8 bytes, for the same reason.
- Utf8.Decode: a leading byte-order mark is decoded as the character U+FEFF. Whether Foundation strips it is not visible here.
