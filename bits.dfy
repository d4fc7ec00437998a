/** Fixed-width integers and the C bit operators the driver uses, over unbounded `int`.

    A byte of a USB transfer or of a HID report is a `byte`; a 16-bit button mask is a
    `uint16`; a stick axis is an `int16`. C's `a | b` and `a & b` on unsigned values are
    `Or` and `And`; bit `k` of a value is `BitSet(x, k)` (bit 0 is the least significant).
 */
module Bits {

  type byte = x: int | 0 <= x < 0x100
  type uint16 = x: int | 0 <= x < 0x1_0000
  type int16 = x: int | -0x8000 <= x < 0x8000

  function Pow2(k: nat): (r: nat)
    ensures r >= 1
  {
    if k == 0 then 1 else 2 * Pow2(k - 1)
  }

  /** Bit k of x. */
  predicate BitSet(x: nat, k: nat)
  {
    if k == 0 then x % 2 == 1 else BitSet(x / 2, k - 1)
  }

  /** C's `a | b`. The result has every bit of `a` and of `b`, so it lies between the
      larger operand and the sum. */
  function Or(a: nat, b: nat): (r: nat)
    ensures a <= r && b <= r && r <= a + b
    decreases a + b
  {
    if a == 0 then b
    else if b == 0 then a
    else 2 * Or(a / 2, b / 2) + (if a % 2 == 1 || b % 2 == 1 then 1 else 0)
  }

  /** C's `a & b`. The result keeps only common bits, so it is at most either operand. */
  function And(a: nat, b: nat): (r: nat)
    ensures r <= a && r <= b
    decreases a + b
  {
    if a == 0 || b == 0 then 0
    else 2 * And(a / 2, b / 2) + (if a % 2 == 1 && b % 2 == 1 then 1 else 0)
  }

  lemma {:induction false} ZeroHasNoBits(k: nat)
    ensures !BitSet(0, k)
  {
    if k > 0 {
      ZeroHasNoBits(k - 1);
    }
  }

  /** A value below 2^n has no bit at position n or above. */
  lemma {:induction false} NoBitsAbove(x: nat, n: nat, k: nat)
    requires x < Pow2(n) && n <= k
    ensures !BitSet(x, k)
  {
    if k == 0 {
    } else if n == 0 {
      assert x == 0;
      ZeroHasNoBits(k);
    } else {
      NoBitsAbove(x / 2, n - 1, k - 1);
    }
  }

  /** 2^n has exactly one bit set, bit n. */
  lemma {:induction false} Pow2Bits(n: nat, k: nat)
    ensures BitSet(Pow2(n), k) <==> k == n
  {
    if n == 0 {
      if k > 0 {
        ZeroHasNoBits(k - 1);
      }
    } else if k == 0 {
    } else {
      Pow2Bits(n - 1, k - 1);
    }
  }

  lemma {:induction false} OrBits(a: nat, b: nat, k: nat)
    ensures BitSet(Or(a, b), k) <==> BitSet(a, k) || BitSet(b, k)
    decreases a + b
  {
    if a == 0 {
      ZeroHasNoBits(k);
    } else if b == 0 {
      ZeroHasNoBits(k);
    } else {
      HalfAndParity(Or(a / 2, b / 2), if a % 2 == 1 || b % 2 == 1 then 1 else 0);
      if k > 0 {
        OrBits(a / 2, b / 2, k - 1);
      }
    }
  }

  /** Halving and parity of 2q + r, for a bit r. */
  lemma HalfAndParity(q: nat, r: nat)
    requires r < 2
    ensures (2 * q + r) / 2 == q && (2 * q + r) % 2 == r
  {
  }

  lemma {:induction false} AndBits(a: nat, b: nat, k: nat)
    ensures BitSet(And(a, b), k) <==> BitSet(a, k) && BitSet(b, k)
    decreases a + b
  {
    if a == 0 || b == 0 {
      ZeroHasNoBits(k);
    } else {
      HalfAndParity(And(a / 2, b / 2), if a % 2 == 1 && b % 2 == 1 then 1 else 0);
      if k > 0 {
        AndBits(a / 2, b / 2, k - 1);
      }
    }
  }

  /** Two values below 2^n that agree on bits 0..n-1 are equal. */
  lemma {:induction false} BitsDetermine(a: nat, b: nat, n: nat)
    requires a < Pow2(n) && b < Pow2(n)
    requires forall k :: 0 <= k < n ==> (BitSet(a, k) <==> BitSet(b, k))
    ensures a == b
  {
    if n > 0 {
      assert BitSet(a, 0) <==> BitSet(b, 0);
      forall k | 0 <= k < n - 1
        ensures BitSet(a / 2, k) <==> BitSet(b / 2, k)
      {
        assert BitSet(a, k + 1) <==> BitSet(b, k + 1);
      }
      BitsDetermine(a / 2, b / 2, n - 1);
    }
  }

  /** Testing a single-bit mask: `x & (1 << k)` is nonzero exactly when bit k of x is set. */
  lemma SingleBitTest(x: nat, k: nat)
    ensures And(x, Pow2(k)) != 0 <==> BitSet(x, k)
  {
    AndBits(x, Pow2(k), k);
    Pow2Bits(k, k);
    if And(x, Pow2(k)) == 0 {
      ZeroHasNoBits(k);
    } else {
      var r := And(x, Pow2(k));
      if !BitSet(x, k) {
        forall j | 0 <= j < k + 1
          ensures BitSet(r, j) <==> BitSet(0, j)
        {
          AndBits(x, Pow2(k), j);
          Pow2Bits(k, j);
          ZeroHasNoBits(j);
        }
        Pow2Bound(k);
        BitsDetermine(r, 0, k + 1);
      }
    }
  }

  lemma Pow2Bound(k: nat)
    ensures Pow2(k) < Pow2(k + 1)
  {
  }

  /** Setting a bit above every bit already set adds its weight: `x | (1 << k) == x + 2^k`
      when x < 2^k. */
  lemma {:induction false} OrAbove(x: nat, k: nat)
    requires x < Pow2(k)
    ensures Or(x, Pow2(k)) == x + Pow2(k)
  {
    if x != 0 && k > 0 {
      OrAbove(x / 2, k - 1);
    }
  }

  /** C's `lo | (hi << n)` when lo fits in n bits: the two halves do not overlap. */
  lemma {:induction false} OrDisjoint(lo: nat, hi: nat, n: nat)
    requires lo < Pow2(n)
    ensures Or(lo, hi * Pow2(n)) == lo + hi * Pow2(n)
  {
    if n > 0 && lo != 0 && hi != 0 {
      calc {
        hi * Pow2(n);
        2 * (hi * Pow2(n - 1));
      }
      OrDisjoint(lo / 2, hi, n - 1);
    }
  }

  /** Bits of an unsigned word written as lo + 2^n * hi with lo below 2^n. */
  lemma {:induction false} SplitBits(lo: nat, hi: nat, n: nat, k: nat)
    requires lo < Pow2(n)
    ensures k < n ==> (BitSet(lo + Pow2(n) * hi, k) <==> BitSet(lo, k))
    ensures n <= k ==> (BitSet(lo + Pow2(n) * hi, k) <==> BitSet(hi, k - n))
  {
    if n == 0 {
      assert lo == 0;
    } else {
      var half := Pow2(n - 1) * hi;
      assert Pow2(n) * hi == 2 * half;
      if k == 0 {
        assert (lo + 2 * half) % 2 == lo % 2;
      } else {
        assert (lo + 2 * half) / 2 == lo / 2 + half;
        SplitBits(lo / 2, hi, n - 1, k - 1);
      }
    }
  }

  /** The powers of two up to 2^16. */
  lemma Pow2Table()
    ensures Pow2(0) == 0x1 && Pow2(1) == 0x2 && Pow2(2) == 0x4 && Pow2(3) == 0x8
    ensures Pow2(4) == 0x10 && Pow2(5) == 0x20 && Pow2(6) == 0x40 && Pow2(7) == 0x80
    ensures Pow2(8) == 0x100 && Pow2(9) == 0x200 && Pow2(10) == 0x400 && Pow2(11) == 0x800
    ensures Pow2(12) == 0x1000 && Pow2(13) == 0x2000 && Pow2(14) == 0x4000
    ensures Pow2(15) == 0x8000 && Pow2(16) == 0x1_0000
  {
    assert Pow2(1) == 2 * Pow2(0);
    assert Pow2(2) == 2 * Pow2(1);
    assert Pow2(3) == 2 * Pow2(2);
    assert Pow2(4) == 2 * Pow2(3);
    assert Pow2(5) == 2 * Pow2(4);
    assert Pow2(6) == 2 * Pow2(5);
    assert Pow2(7) == 2 * Pow2(6);
    assert Pow2(8) == 2 * Pow2(7);
    assert Pow2(9) == 2 * Pow2(8);
    assert Pow2(10) == 2 * Pow2(9);
    assert Pow2(11) == 2 * Pow2(10);
    assert Pow2(12) == 2 * Pow2(11);
    assert Pow2(13) == 2 * Pow2(12);
    assert Pow2(14) == 2 * Pow2(13);
    assert Pow2(15) == 2 * Pow2(14);
    assert Pow2(16) == 2 * Pow2(15);
  }

  /** 2^n - 1 has exactly bits 0..n-1 set. */
  lemma {:induction false} LowOnesBits(n: nat, k: nat)
    ensures BitSet(Pow2(n) - 1, k) <==> k < n
  {
    if n == 0 {
      ZeroHasNoBits(k);
    } else if k > 0 {
      assert (Pow2(n) - 1) / 2 == Pow2(n - 1) - 1;
      LowOnesBits(n - 1, k - 1);
    }
  }

  /** Distinct powers of two share no bit. */
  lemma {:induction false} AndDistinctPowers(i: nat, j: nat)
    requires i != j
    ensures And(Pow2(i), Pow2(j)) == 0
  {
    if i > 0 && j > 0 {
      AndDistinctPowers(i - 1, j - 1);
    }
  }

  /** The position of the highest set bit of a positive value. */
  function Log2(x: nat): (k: nat)
    requires x > 0
    ensures BitSet(x, k)
  {
    if x == 1 then 0 else 1 + Log2(x / 2)
  }

  /** A value with no bit at position n or above is below 2^n. */
  lemma {:induction false} HasNoBitsAbove(x: nat, n: nat)
    requires forall k :: n <= k ==> !BitSet(x, k)
    ensures x < Pow2(n)
    decreases x
  {
    if x > 0 {
      var top := Log2(x);
      assert top < n;
      forall k | n - 1 <= k
        ensures !BitSet(x / 2, k)
      {
        assert !BitSet(x, k + 1);
      }
      HasNoBitsAbove(x / 2, n - 1);
    }
  }

  /** OR-ing two values below 2^n stays below 2^n: `|=` on a word never overflows it. */
  lemma OrBelow(a: nat, b: nat, n: nat)
    requires a < Pow2(n) && b < Pow2(n)
    ensures Or(a, b) < Pow2(n)
  {
    forall k | n <= k
      ensures !BitSet(Or(a, b), k)
    {
      OrBits(a, b, k);
      NoBitsAbove(a, n, k);
      NoBitsAbove(b, n, k);
    }
    HasNoBitsAbove(Or(a, b), n);
  }

  /** C's `a ^ b`. */
  function Xor(a: nat, b: nat): (r: nat)
    ensures r <= a + b
    decreases a + b
  {
    if a == 0 then b
    else if b == 0 then a
    else 2 * Xor(a / 2, b / 2) + (if (a % 2 == 1) != (b % 2 == 1) then 1 else 0)
  }

  /** Flipping bit n of a value below 2^(n+1) adds 2^n when that bit is clear and subtracts
      it when it is set. */
  lemma {:induction false} XorPow2(x: nat, n: nat)
    requires x < 2 * Pow2(n)
    ensures Xor(x, Pow2(n)) == if x < Pow2(n) then x + Pow2(n) else x - Pow2(n)
  {
    if n == 0 {
      if x == 1 {
        assert Xor(1, 1) == 2 * Xor(0, 0);
      }
    } else if x != 0 {
      XorPow2(x / 2, n - 1);
      assert Xor(x, Pow2(n)) == 2 * Xor(x / 2, Pow2(n - 1)) + x % 2;
    }
  }

  /** The sum of the weights of bits 0..n-1 of x. */
  function BitWeights(x: nat, n: nat): nat
  {
    if n == 0 then 0 else BitWeights(x, n - 1) + (if BitSet(x, n - 1) then Pow2(n - 1) else 0)
  }

  lemma {:induction false} BitWeightsShift(x: nat, n: nat)
    requires n >= 1
    ensures BitWeights(x, n) == x % 2 + 2 * BitWeights(x / 2, n - 1)
  {
    if n > 1 {
      BitWeightsShift(x, n - 1);
    }
  }

  /** A value below 2^n is the sum of the weights of its bits. */
  lemma {:induction false} BitWeightsValue(x: nat, n: nat)
    requires x < Pow2(n)
    ensures BitWeights(x, n) == x
  {
    if n > 0 {
      BitWeightsShift(x, n);
      BitWeightsValue(x / 2, n - 1);
    }
  }

  /** A byte is the sum of the weights of its eight bits. */
  lemma ByteAsBitSum(x: byte)
    ensures x == (if BitSet(x, 0) then 0x01 else 0) + (if BitSet(x, 1) then 0x02 else 0)
               + (if BitSet(x, 2) then 0x04 else 0) + (if BitSet(x, 3) then 0x08 else 0)
               + (if BitSet(x, 4) then 0x10 else 0) + (if BitSet(x, 5) then 0x20 else 0)
               + (if BitSet(x, 6) then 0x40 else 0) + (if BitSet(x, 7) then 0x80 else 0)
  {
    Pow2Table();
    BitWeightsValue(x, 8);
    assert BitWeights(x, 1) == (if BitSet(x, 0) then 0x01 else 0);
    assert BitWeights(x, 2) == BitWeights(x, 1) + (if BitSet(x, 1) then 0x02 else 0);
    assert BitWeights(x, 3) == BitWeights(x, 2) + (if BitSet(x, 2) then 0x04 else 0);
    assert BitWeights(x, 4) == BitWeights(x, 3) + (if BitSet(x, 3) then 0x08 else 0);
    assert BitWeights(x, 5) == BitWeights(x, 4) + (if BitSet(x, 4) then 0x10 else 0);
    assert BitWeights(x, 6) == BitWeights(x, 5) + (if BitSet(x, 5) then 0x20 else 0);
    assert BitWeights(x, 7) == BitWeights(x, 6) + (if BitSet(x, 6) then 0x40 else 0);
  }

  // ---- Little-endian byte images -------------------------------------------------

  /** The two bytes of a uint16 in memory on a little-endian host (low byte first). */
  function Le16(w: uint16): (b: seq<byte>)
  {
    [w % 0x100, w / 0x100]
  }

  /** The uint16 whose little-endian image is `b`. */
  function FromLe16(b: seq<byte>): uint16
    requires |b| == 2
  {
    b[0] as int + 0x100 * b[1] as int
  }

  /** The low and high bytes of lo + 256 hi are lo and hi. */
  lemma WordBytes(lo: byte, hi: byte)
    ensures (lo + 0x100 * hi) % 0x100 == lo && (lo + 0x100 * hi) / 0x100 == hi
  {
  }

  lemma Le16RoundTrip(w: uint16)
    ensures |Le16(w)| == 2 && FromLe16(Le16(w)) == w
  {
  }

  lemma FromLe16RoundTrip(b: seq<byte>)
    requires |b| == 2
    ensures Le16(FromLe16(b)) == b
  {
  }

  /** C's conversion of an unsigned value to `int16_t`: two's-complement wrap-around. */
  function ToInt16(u: nat): (v: int16)
    ensures (v - u) % 0x1_0000 == 0
  {
    var w := u % 0x1_0000;
    if w >= 0x8000 then w - 0x1_0000 else w
  }

  /** The int16 stored little-endian in the bytes lo, hi. */
  function Int16Le(lo: byte, hi: byte): (v: int16)
    ensures (v - (lo + 0x100 * hi)) % 0x1_0000 == 0
    ensures v < 0 <==> hi >= 0x80
  {
    ToInt16(lo + 0x100 * hi)
  }

  /** The two bytes of an int16 in memory on a little-endian host. */
  function Int16Bytes(v: int16): (b: seq<byte>)
  {
    var u := if v < 0 then v + 0x1_0000 else v;
    [u % 0x100, u / 0x100]
  }

  lemma Int16RoundTrip(v: int16)
    ensures |Int16Bytes(v)| == 2 && Int16Le(Int16Bytes(v)[0], Int16Bytes(v)[1]) == v
  {
  }

  lemma Int16BytesRoundTrip(lo: byte, hi: byte)
    ensures Int16Bytes(Int16Le(lo, hi)) == [lo, hi]
  {
  }
}
