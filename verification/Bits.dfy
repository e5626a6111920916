/** Bitwise operators of unsigned machine words, as functions of natural numbers. */
module Bits {

  type Byte = b: nat | b < 0x100
  type Word32 = v: nat | v < 0x1_0000_0000
  type U64 = x: nat | x < 0x1_0000_0000_0000_0000

  /** u32::from_be_bytes */
  function FromBeBytes(b0: Byte, b1: Byte, b2: Byte, b3: Byte): Word32 {
    b0 * 0x1_00_00_00 + b1 * 0x1_00_00 + b2 * 0x1_00 + b3
  }

  function Pow2(n: nat): (p: nat)
    ensures p > 0
  {
    if n == 0 then 1 else 2 * Pow2(n - 1)
  }

  /** (x >> k) & 1 == 1 */
  predicate Bit(x: nat, k: nat) {
    if k == 0 then x % 2 == 1 else Bit(x / 2, k - 1)
  }

  /** x | y */
  function Or(x: nat, y: nat): nat {
    if x == 0 && y == 0 then 0
    else 2 * Or(x / 2, y / 2) + (if x % 2 == 1 || y % 2 == 1 then 1 else 0)
  }

  /** x & y */
  function And(x: nat, y: nat): nat {
    if x == 0 || y == 0 then 0
    else 2 * And(x / 2, y / 2) + (if x % 2 == 1 && y % 2 == 1 then 1 else 0)
  }

  /** !x in a word of `width` bits */
  function Not(width: nat, x: nat): nat
    requires x < Pow2(width)
  {
    Pow2(width) - 1 - x
  }

  lemma {:induction false} BitOfOr(x: nat, y: nat, k: nat)
    ensures Bit(Or(x, y), k) <==> Bit(x, k) || Bit(y, k)
  {
    if x == 0 && y == 0 {
      BitOfZero(k);
    } else if k > 0 {
      BitOfOr(x / 2, y / 2, k - 1);
    }
  }

  lemma {:induction false} BitOfAnd(x: nat, y: nat, k: nat)
    ensures Bit(And(x, y), k) <==> Bit(x, k) && Bit(y, k)
  {
    if x == 0 || y == 0 {
      BitOfZero(k);
    } else if k > 0 {
      BitOfAnd(x / 2, y / 2, k - 1);
    }
  }

  lemma BitOfZero(k: nat)
    ensures !Bit(0, k)
  {
  }

  lemma {:induction false} BitOfPow2(n: nat, k: nat)
    ensures Bit(Pow2(n), k) <==> n == k
  {
    if n == 0 && k > 0 {
      BitOfZero(k - 1);
    } else if n > 0 && k > 0 {
      BitOfPow2(n - 1, k - 1);
    }
  }

  lemma {:induction false} BitOfNot(width: nat, x: nat, k: nat)
    requires x < Pow2(width) && k < width
    ensures Bit(Not(width, x), k) <==> !Bit(x, k)
  {
    if k > 0 {
      assert Not(width, x) / 2 == Not(width - 1, x / 2);
      BitOfNot(width - 1, x / 2, k - 1);
    }
  }

  /** x & (1 << k) is zero or not, as bit k is. */
  lemma {:induction false} MaskIsolates(x: nat, k: nat)
    ensures And(x, Pow2(k)) != 0 <==> Bit(x, k)
  {
    if x == 0 {
      BitOfZero(k);
    } else if k == 0 {
      assert And(x / 2, 0) == 0;
    } else {
      MaskIsolates(x / 2, k - 1);
    }
  }

  lemma {:induction false} OrFits(width: nat, x: nat, y: nat)
    requires x < Pow2(width) && y < Pow2(width)
    ensures Or(x, y) < Pow2(width)
  {
    if width > 0 {
      OrFits(width - 1, x / 2, y / 2);
    }
  }

  lemma {:induction false} AndFits(x: nat, y: nat)
    ensures And(x, y) <= x && And(x, y) <= y
  {
    if x > 0 && y > 0 {
      AndFits(x / 2, y / 2);
    }
  }

  lemma {:induction false} Pow2Monotone(m: nat, n: nat)
    requires m <= n
    ensures Pow2(m) <= Pow2(n)
  {
    if m < n {
      Pow2Monotone(m, n - 1);
    }
  }

  lemma Pow2Strict(m: nat, n: nat)
    requires m < n
    ensures Pow2(m) < Pow2(n)
  {
    Pow2Monotone(m, n - 1);
  }

  /** The powers of two that fields and alignments use. */
  lemma PowersOfTwo()
    ensures Pow2(8) == 0x100 && Pow2(11) == 0x800 && Pow2(12) == 0x1000
    ensures Pow2(16) == 0x1_0000 && Pow2(21) == 0x20_0000 && Pow2(24) == 0x100_0000
  {
  }

  lemma {:induction false} Pow2Doubled(n: nat)
    ensures Pow2(2 * n) == Pow2(n) * Pow2(n)
  {
    if n > 0 {
      Pow2Doubled(n - 1);
      assert Pow2(2 * n - 1) == 2 * Pow2(2 * (n - 1));
    }
  }

  lemma SquareOf(n: nat, p: nat)
    requires Pow2(n) == p
    ensures Pow2(2 * n) == p * p
  {
    Pow2Doubled(n);
  }

  lemma SizeOfU64()
    ensures Pow2(64) == 0x1_0000_0000_0000_0000
  {
    PowersOfTwo();
    SquareOf(16, 0x1_0000);
    SquareOf(32, 0x1_0000_0000);
  }

  /** x | (1 << k), or x & !(1 << k), in a word of `width` bits */
  function WithBit(width: nat, x: nat, k: nat, on: bool): (r: nat)
    requires x < Pow2(width) && k < width
    ensures r < Pow2(width)
  {
    Pow2Strict(k, width);
    OrFits(width, x, Pow2(k));
    AndFits(x, Not(width, Pow2(k)));
    if on then Or(x, Pow2(k)) else And(x, Not(width, Pow2(k)))
  }

  /** Writing one bit of a word sets or clears that bit and leaves the others. */
  lemma BitOfWithBit(width: nat, x: nat, k: nat, on: bool, j: nat)
    requires x < Pow2(width) && k < width && j < width
    ensures Bit(WithBit(width, x, k, on), j) <==> if j == k then on else Bit(x, j)
  {
    Pow2Strict(k, width);
    BitOfPow2(k, j);
    BitOfOr(x, Pow2(k), j);
    BitOfAnd(x, Not(width, Pow2(k)), j);
    BitOfNot(width, Pow2(k), j);
  }

  /** Bits written below an aligned value simply add. */
  lemma {:induction false} OrOfAligned(n: nat, q: nat, y: nat)
    requires y < Pow2(n)
    ensures Or(q * Pow2(n), y) == q * Pow2(n) + y
  {
    if n == 0 {
      OrOfZero(q);
    } else {
      var x := q * Pow2(n - 1);
      assert q * Pow2(n) == 2 * x;
      OrOfAligned(n - 1, q, y / 2);
    }
  }

  lemma {:induction false} OrOfZero(x: nat)
    ensures Or(x, 0) == x
  {
    if x > 0 {
      OrOfZero(x / 2);
    }
  }

  /** Bit k is binary digit k. */
  lemma {:induction false} BitIsDigit(v: nat, k: nat)
    ensures Bit(v, k) <==> v / Pow2(k) % 2 == 1
  {
    if k > 0 {
      BitIsDigit(v / 2, k - 1);
      HalvedTwice(v, Pow2(k - 1));
    }
  }

  lemma HalvedTwice(v: nat, q: nat)
    requires q > 0
    ensures v / 2 / q == v / (2 * q)
  {
    var x, r := v / 2 / q, v / 2 % q;
    assert v / 2 == q * x + r;
    assert v == 2 * q * x + (2 * r + v % 2) && 2 * r + v % 2 < 2 * q;
    QuotientIs(v, 2 * q, x, 2 * r + v % 2);
  }

  lemma QuotientIs(v: nat, d: nat, x: nat, r: nat)
    requires v == d * x + r && r < d
    ensures v / d == x
  {
    var y := v / d;
    assert v == d * y + v % d;
    if y < x {
      NextMultiple(d, y, x);
      assert false;
    } else if y > x {
      NextMultiple(d, x, y);
      assert false;
    }
  }

  lemma {:induction false} NextMultiple(d: nat, x: nat, y: nat)
    requires x < y
    ensures d * y >= d * x + d
  {
    assert d * y == d * (y - 1) + d;
    if x < y - 1 {
      NextMultiple(d, x, y - 1);
    }
  }

  /** The bits of a byte. */
  lemma BitsOfByte(v: Byte)
    ensures (Bit(v, 7) <==> v / 128 % 2 == 1) && (Bit(v, 6) <==> v / 64 % 2 == 1)
    ensures (Bit(v, 5) <==> v / 32 % 2 == 1) && (Bit(v, 4) <==> v / 16 % 2 == 1)
    ensures (Bit(v, 3) <==> v / 8 % 2 == 1) && (Bit(v, 2) <==> v / 4 % 2 == 1)
    ensures (Bit(v, 1) <==> v / 2 % 2 == 1) && (Bit(v, 0) <==> v % 2 == 1)
  {
    SmallPowers();
    forall k | 0 <= k < 8
      ensures Bit(v, k) <==> v / Pow2(k) % 2 == 1
    {
      BitIsDigit(v, k);
    }
  }

  lemma SmallPowers()
    ensures Pow2(7) == 128 && Pow2(6) == 64 && Pow2(5) == 32 && Pow2(4) == 16
    ensures Pow2(3) == 8 && Pow2(2) == 4 && Pow2(1) == 2 && Pow2(0) == 1
  {
  }
}
