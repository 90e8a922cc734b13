/**
  Powers and the two UInt64 operations the byte accumulation uses: a left
  shift that drops the bits pushed past bit 63, and a bitwise or. Values are
  natural numbers below 2^64.
 */
module Bits {

  /** An octet, as Swift's UInt8 and the elements of Foundation's Data. */
  type Byte = b: int | 0 <= b < 256

  /** `b` raised to the power `e`. */
  function Pow(b: nat, e: nat): (r: nat)
    ensures b >= 1 ==> r >= 1
    ensures b >= 2 && e >= 1 ==> r >= b
  {
    if e == 0 then 1 else b * Pow(b, e - 1)
  }

  /** 2^64: the first value a UInt64 cannot hold. */
  const UINT64_LIMIT: nat := 0x1_0000_0000_0000_0000

  lemma {:induction false} PowAdd(b: nat, m: nat, n: nat)
    ensures Pow(b, m + n) == Pow(b, m) * Pow(b, n)
  {
    if n > 0 {
      PowAdd(b, m, n - 1);
      var u, v := Pow(b, m), Pow(b, n - 1);
      assert Pow(b, m + n) == b * (u * v);
      MulRotate(b, u, v);
    }
  }

  lemma MulRotate(a: int, u: int, v: int)
    ensures a * (u * v) == u * (a * v)
  {
  }

  lemma {:induction false} PowMonotone(b: nat, m: nat, n: nat)
    requires b >= 1 && m <= n
    ensures Pow(b, m) <= Pow(b, n)
  {
    if m < n {
      PowMonotone(b, m, n - 1);
      var w := Pow(b, n - 1);
      assert Pow(b, n) == b * w;
      MulAtLeast(b, w);
    }
  }

  lemma MulAtLeast(b: nat, w: nat)
    requires b >= 1
    ensures b * w >= w
  {
  }

  /** 2^(8k) and 256^k are the same number; so are 16^(2k) and 256^k. */
  lemma {:induction false} PowBytes(k: nat)
    ensures Pow(2, 8 * k) == Pow(256, k)
    ensures Pow(16, 2 * k) == Pow(256, k)
  {
    if k > 0 {
      PowBytes(k - 1);
      var w := Pow(256, k - 1);
      assert Pow(256, k) == 256 * w;
      assert Pow(2, 8 * k) == Pow(2, 8 * (k - 1)) * Pow(2, 8) by {
        PowAdd(2, 8 * (k - 1), 8);
      }
      assert Pow(16, 2 * k) == Pow(16, 2 * (k - 1)) * Pow(16, 2) by {
        PowAdd(16, 2 * (k - 1), 2);
      }
      SmallPowers();
    }
  }

  lemma SmallPowers()
    ensures Pow(2, 8) == 256 && Pow(16, 2) == 256 && Pow(256, 1) == 256
  {
    assert Pow(2, 2) == 4;
    assert Pow(2, 4) == 16;
    assert Pow(2, 6) == 64;
    assert Pow(16, 1) == 16;
  }

  /** 256^8 is 2^64. */
  lemma Pow256Eight()
    ensures Pow(256, 8) == UINT64_LIMIT
  {
    assert Pow(256, 2) == 0x1_0000;
    assert Pow(256, 4) == 0x1_0000_0000 by { PowAdd(256, 2, 2); }
    PowAdd(256, 4, 4);
  }

  /** 2^63, the sign bit of a 64-bit integer, and the hexadecimal weights 16^15 and 16^16. */
  lemma PowSixtyFour()
    ensures Pow(2, 64) == UINT64_LIMIT && Pow(2, 63) == 0x8000_0000_0000_0000
    ensures Pow(16, 16) == UINT64_LIMIT && Pow(16, 15) == 0x1000_0000_0000_0000
  {
    PowBytes(8);
    Pow256Eight();
    assert Pow(2, 64) == 2 * Pow(2, 63);
    assert Pow(16, 16) == 16 * Pow(16, 15);
  }

  /** UInt64 `x << k`: bits shifted past bit 63 are lost. */
  function ShiftLeft(x: nat, k: nat): (r: nat)
    ensures r < UINT64_LIMIT
    ensures x * Pow(2, k) < UINT64_LIMIT ==> r == x * Pow(2, k)
  {
    (x * Pow(2, k)) % UINT64_LIMIT
  }

  /** Bitwise or of two naturals, bit by bit from the least significant end. */
  function BitOr(x: nat, y: nat): (r: nat)
    ensures x <= r && y <= r && r <= x + y
    ensures r % 2 == 1 <==> x % 2 == 1 || y % 2 == 1
    decreases x + y
  {
    if x == 0 then y
    else if y == 0 then x
    else
      var q, bit := BitOr(x / 2, y / 2), if x % 2 == 1 || y % 2 == 1 then 1 else 0;
      assert x == 2 * (x / 2) + x % 2 && y == 2 * (y / 2) + y % 2;
      LowBit(q, bit);
      2 * q + bit
  }

  /** Appending a low bit to a number. */
  lemma LowBit(q: nat, bit: nat)
    requires bit < 2
    ensures (2 * q + bit) % 2 == bit
  {
  }

  lemma {:induction false} BitOrCommutes(x: nat, y: nat)
    ensures BitOr(x, y) == BitOr(y, x)
    decreases x + y
  {
    if x != 0 && y != 0 {
      BitOrCommutes(x / 2, y / 2);
    }
  }

  /**
    When `x` has no bit set below bit `k` and `y` none at or above it, or-ing
    them is adding them.
   */
  lemma {:induction false} BitOrDisjoint(q: nat, k: nat, y: nat)
    requires y < Pow(2, k)
    ensures BitOr(q * Pow(2, k), y) == q * Pow(2, k) + y
    ensures BitOr(y, q * Pow(2, k)) == q * Pow(2, k) + y
  {
    var x := q * Pow(2, k);
    BitOrCommutes(y, x);
    if k == 0 {
      assert y == 0;
    } else if x != 0 && y != 0 {
      var p := Pow(2, k - 1);
      var m := q * p;
      assert x == 2 * m by {
        assert Pow(2, k) == 2 * p;
        MulRotate(q, 2, p);
      }
      assert x / 2 == m && x % 2 == 0;
      assert y / 2 < p;
      BitOrDisjoint(q, k - 1, y / 2);
      assert BitOr(x, y) == 2 * BitOr(m, y / 2) + y % 2 by {
        assert BitOr(x, y) == 2 * BitOr(x / 2, y / 2) + (if x % 2 == 1 || y % 2 == 1 then 1 else 0);
      }
    }
  }
}
