/**
  Positional numerals as C's printf and Swift's `description` write them:
  `%llu`-style decimal text, `%llX` upper-case hexadecimal, the `0` flag with a
  minimum field width (`%0*llX`, `%02X`), and the signed decimal text of an
  integer. Each rendering comes with the parser that reads it back.
 */
module Numerals {
  import opened Bits

  const DIGITS: string := "0123456789ABCDEF"

  /** A base this module can write: 2 to 16. */
  predicate IsBase(base: nat) { 2 <= base <= 16 }

  function DigitChar(d: nat): char
    requires d < 16
  {
    DIGITS[d]
  }

  /** The value of a digit character, 0 for a character that is not a digit. */
  function DigitValue(c: char): (d: nat)
    ensures d < 16
  {
    if '0' <= c <= '9' then c as int - '0' as int
    else if 'A' <= c <= 'F' then c as int - 'A' as int + 10
    else 0
  }

  lemma DigitRoundTrip(d: nat)
    requires d < 16
    ensures DigitValue(DigitChar(d)) == d
  {
  }

  /** A digit character of the given base, upper-case for 10 to 15. */
  predicate IsDigit(c: char, base: nat) {
    ('0' <= c <= '9' && c as int - '0' as int < base) || ('A' <= c <= 'F' && c as int - 'A' as int + 10 < base)
  }

  predicate IsNumeral(s: string, base: nat) {
    forall i :: 0 <= i < |s| ==> IsDigit(s[i], base)
  }

  /** Upper-case hexadecimal digits only. */
  predicate IsUpperHex(s: string) { IsNumeral(s, 16) }

  /**
    The shortest numeral of `n` in `base`: one digit for 0, otherwise no
    leading zero.
   */
  function Numeral(n: nat, base: nat): (s: string)
    requires IsBase(base)
    ensures |s| >= 1 && IsNumeral(s, base)
    ensures s[0] == '0' <==> n == 0
    decreases n
  {
    if n < base then [DigitChar(n)]
    else
      DivideByBase(n, base);
      Numeral(n / base, base) + [DigitChar(n % base)]
  }

  /** Euclidean division by a base, and its progress on numbers of two or more digits. */
  lemma DivideByBase(n: nat, base: nat)
    requires IsBase(base)
    ensures n == (n / base) * base + n % base && n % base < base
    ensures n >= base ==> 1 <= n / base < n
  {
  }

  /** The value of a numeral, most significant digit first. */
  function ParseNumeral(s: string, base: nat): nat
  {
    if s == [] then 0 else ParseNumeral(s[..|s| - 1], base) * base + DigitValue(s[|s| - 1])
  }

  lemma {:induction false} ParseNumeralOfNumeral(n: nat, base: nat)
    requires IsBase(base)
    ensures ParseNumeral(Numeral(n, base), base) == n
    decreases n
  {
    var s := Numeral(n, base);
    if n >= base {
      DivideByBase(n, base);
      ParseNumeralOfNumeral(n / base, base);
      assert s[..|s| - 1] == Numeral(n / base, base);
    }
  }

  /** A hexadecimal numeral of `n` has exactly k digits when 16^(k-1) <= n < 16^k. */
  lemma {:induction false} HexLength(n: nat, k: nat)
    requires k >= 1
    ensures n < Pow(16, k) ==> |Numeral(n, 16)| <= k
    ensures n >= Pow(16, k - 1) ==> |Numeral(n, 16)| >= k
    decreases k
  {
    assert Pow(16, 1) == 16;
    if k > 1 && n >= 16 {
      HexLength(n / 16, k - 1);
      assert Pow(16, k) == 16 * Pow(16, k - 1);
      assert Pow(16, k - 1) == 16 * Pow(16, k - 2);
    }
  }

  function Zeros(k: nat): (s: string)
    ensures |s| == k && forall i :: 0 <= i < k ==> s[i] == '0'
  {
    seq(k, _ => '0')
  }

  /** The `0` flag with a minimum field width: left-pad with zeros, never truncate. */
  function ZeroPad(s: string, width: nat): (r: string)
    ensures |r| == if |s| >= width then |s| else width
    ensures r == Zeros(|r| - |s|) + s
  {
    if |s| >= width then s else Zeros(width - |s|) + s
  }

  lemma {:induction false} ParseNumeralOfZeros(k: nat, base: nat)
    ensures ParseNumeral(Zeros(k), base) == 0
  {
    if k > 0 {
      assert Zeros(k)[..k - 1] == Zeros(k - 1);
      ParseNumeralOfZeros(k - 1, base);
    }
  }

  /** Leading zeros do not change the value of a numeral. */
  lemma {:induction false} ParseNumeralIgnoresLeadingZeros(k: nat, s: string, base: nat)
    ensures ParseNumeral(Zeros(k) + s, base) == ParseNumeral(s, base)
    decreases |s|
  {
    if s == [] {
      assert Zeros(k) + s == Zeros(k);
      ParseNumeralOfZeros(k, base);
    } else {
      var t := Zeros(k) + s;
      assert t[..|t| - 1] == Zeros(k) + s[..|s| - 1];
      ParseNumeralIgnoresLeadingZeros(k, s[..|s| - 1], base);
    }
  }

  /** `%0*llX` with field width `width`: upper-case hex of `n`, zero-padded to at least `width` digits. */
  function FormatHex(n: nat, width: nat): (s: string)
    ensures |s| >= 1 && |s| >= width && IsUpperHex(s)
    ensures width <= 1 ==> s == Numeral(n, 16)
  {
    ZeroPad(Numeral(n, 16), width)
  }

  /** What `%0*llX` prints: hex digits only, at least `width` of them, reading back as `n`. */
  lemma FormatHexMeaning(n: nat, width: nat)
    ensures IsUpperHex(FormatHex(n, width))
    ensures |FormatHex(n, width)| >= width
    ensures ParseNumeral(FormatHex(n, width), 16) == n
    ensures width >= 1 && n < Pow(16, width) ==> |FormatHex(n, width)| == width
  {
    var h := Numeral(n, 16);
    var s := FormatHex(n, width);
    var k := |s| - |h|;
    assert s == Zeros(k) + h;
    assert IsUpperHex(s) by {
      forall i | 0 <= i < |s| ensures IsDigit(s[i], 16) {
        if i >= k {
          assert s[i] == h[i - k];
        }
      }
    }
    assert ParseNumeral(s, 16) == n by {
      ParseNumeralIgnoresLeadingZeros(k, h, 16);
      ParseNumeralOfNumeral(n, 16);
    }
    if width >= 1 && n < Pow(16, width) {
      HexLength(n, width);
    }
  }

  /** Exactly `width` hex digits of `n`, least significant last; higher digits are dropped. */
  function FixedHex(n: nat, width: nat): (s: string)
    ensures |s| == width
  {
    if width == 0 then [] else FixedHex(n / 16, width - 1) + [DigitChar(n % 16)]
  }

  lemma {:induction false} FixedHexOfZero(width: nat)
    ensures FixedHex(0, width) == Zeros(width)
  {
    if width > 0 {
      FixedHexOfZero(width - 1);
    }
  }

  /** Zero-padding a shortest numeral to a wider field is writing a fixed number of digits. */
  lemma {:induction false} FixedHexIsPadded(n: nat, width: nat)
    requires width >= |Numeral(n, 16)|
    ensures FixedHex(n, width) == Zeros(width - |Numeral(n, 16)|) + Numeral(n, 16)
    decreases n
  {
    if n < 16 {
      FixedHexOfZero(width - 1);
    } else {
      FixedHexIsPadded(n / 16, width - 1);
    }
  }

  /** Below 16^width, `%0*llX` writes exactly the `width` low digits of `n`. */
  lemma FormatHexIsFixed(n: nat, width: nat)
    requires width >= 1 && n < Pow(16, width)
    ensures FormatHex(n, width) == FixedHex(n, width)
  {
    HexLength(n, width);
    FixedHexIsPadded(n, width);
  }

  /** `%02X` applied to one byte. */
  function HexByte(b: Byte): (s: string)
    ensures |s| == 2
  {
    [DigitChar(b / 16), DigitChar(b % 16)]
  }

  /** `%02X` is `%0*llX` with field width 2, and its two digits read back as the byte. */
  lemma HexByteMeaning(b: Byte)
    ensures HexByte(b) == FormatHex(b, 2)
    ensures |HexByte(b)| == 2 && IsUpperHex(HexByte(b))
    ensures DigitValue(HexByte(b)[0]) * 16 + DigitValue(HexByte(b)[1]) == b
  {
    var n := b;
    TwoHexDigits(n);
    DigitRoundTrip(n / 16);
    DigitRoundTrip(n % 16);
  }

  lemma TwoHexDigits(n: nat)
    requires n < 256
    ensures FormatHex(n, 2) == [DigitChar(n / 16), DigitChar(n % 16)]
  {
    assert Pow(16, 2) == 256 by { assert Pow(16, 1) == 16; }
    FormatHexIsFixed(n, 2);
    var hi := n / 16;
    assert hi / 16 == 0 && hi % 16 == hi;
    calc {
      FixedHex(n, 2);
      FixedHex(hi, 1) + [DigitChar(n % 16)];
      FixedHex(0, 0) + [DigitChar(hi)] + [DigitChar(n % 16)];
    }
  }

  /** Two upper-case hex digits per byte, in order, no separators. */
  function HexString(bytes: seq<Byte>): (s: string)
    ensures |s| == 2 * |bytes| && IsUpperHex(s)
  {
    if bytes == [] then []
    else
      HexByteMeaning(bytes[0]);
      HexByte(bytes[0]) + HexString(bytes[1..])
  }

  /** Reads a string of digit pairs back into bytes. */
  function HexPairsToBytes(s: string): (bytes: seq<Byte>)
    requires |s| % 2 == 0
  {
    if s == [] then [] else [DigitValue(s[0]) * 16 + DigitValue(s[1])] + HexPairsToBytes(s[2..])
  }

  lemma {:induction false} HexPairsOfHexString(bytes: seq<Byte>)
    ensures HexPairsToBytes(HexString(bytes)) == bytes
  {
    if bytes != [] {
      var s := HexString(bytes);
      HexByteMeaning(bytes[0]);
      assert s[2..] == HexString(bytes[1..]);
      HexPairsOfHexString(bytes[1..]);
    }
  }

  /** The digit pair at position i is the byte at index i. */
  lemma {:induction false} HexStringAt(bytes: seq<Byte>, i: nat)
    requires i < |bytes|
    ensures HexString(bytes)[2 * i..2 * i + 2] == HexByte(bytes[i])
  {
    var s := HexString(bytes);
    if i > 0 {
      HexStringAt(bytes[1..], i - 1);
      assert s[2..] == HexString(bytes[1..]);
      assert s[2 * i..2 * i + 2] == s[2..][2 * (i - 1)..2 * (i - 1) + 2];
    }
  }

  lemma {:induction false} HexStringAppend(bytes: seq<Byte>, b: Byte)
    ensures HexString(bytes + [b]) == HexString(bytes) + HexByte(b)
  {
    if bytes != [] {
      assert (bytes + [b])[1..] == bytes[1..] + [b];
      HexStringAppend(bytes[1..], b);
    } else {
      assert HexString([b]) == HexByte(b) + HexString([]);
    }
  }

  /** The decimal text of a natural number (Swift's `UInt64.description`). */
  function DecimalText(n: nat): (s: string)
    ensures |s| >= 1 && IsNumeral(s, 10)
    ensures s[0] == '0' <==> n == 0
  {
    Numeral(n, 10)
  }

  /** The decimal text of an integer: a minus sign before the magnitude when negative. */
  function SignedDecimalText(i: int): (s: string)
    ensures |s| >= 1 && (s[0] == '-' <==> i < 0)
    ensures i < 0 ==> |s| >= 2 && IsNumeral(s[1..], 10) && s[1] != '0'
    ensures i >= 0 ==> IsNumeral(s, 10)
  {
    if i < 0 then "-" + Numeral(-i, 10) else Numeral(i, 10)
  }

  /** Reads an optionally signed decimal numeral. */
  function ParseSignedDecimal(s: string): int
  {
    if |s| > 0 && s[0] == '-' then -(ParseNumeral(s[1..], 10) as int) else ParseNumeral(s, 10)
  }

  /** Decimal text is digits only, without leading zeros, and reads back as the number. */
  lemma DecimalTextMeaning(n: nat)
    ensures IsNumeral(DecimalText(n), 10) && |DecimalText(n)| >= 1
    ensures DecimalText(n)[0] == '0' ==> DecimalText(n) == "0"
    ensures ParseNumeral(DecimalText(n), 10) == n
  {
    ParseNumeralOfNumeral(n, 10);
  }

  /**
    Signed decimal text has a minus sign exactly for negatives, followed by the
    canonical decimal text of the magnitude, and reads back as the integer.
  */
  lemma SignedDecimalTextMeaning(i: int)
    ensures SignedDecimalText(i)[0] == '-' <==> i < 0
    ensures i >= 0 ==> SignedDecimalText(i) == DecimalText(i)
    ensures i < 0 ==> SignedDecimalText(i) == "-" + DecimalText(-i)
    ensures var d := if i < 0 then SignedDecimalText(i)[1..] else SignedDecimalText(i);
      && |d| >= 1 && IsNumeral(d, 10) && (d[0] == '0' ==> d == "0")
    ensures ParseSignedDecimal(SignedDecimalText(i)) == i
  {
    var s := SignedDecimalText(i);
    if i < 0 {
      assert s[1..] == Numeral(-i, 10);
      ParseNumeralOfNumeral(-i, 10);
    } else {
      ParseNumeralOfNumeral(i, 10);
    }
  }
}
