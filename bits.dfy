/**
 * Bytes and the C# bit operators the driver uses on non-negative integers.
 * `&` with a low mask, `<<` and `>>` are written as `%`, `*` and `/` where
 * they are used; `|` and `^` are defined here bit by bit.
 */
module Bits {

  /** The C# `byte`. */
  type Byte = x: int | 0 <= x < 0x100

  function Pow2(k: nat): (p: nat)
    ensures p >= 1
  {
    if k == 0 then 1 else 2 * Pow2(k - 1)
  }

  /** Bit 7 of `x`, the test `(x & 0x80) > 0`. */
  predicate Bit7(x: nat)
  {
    Bit(x, 7)
  }

  /** Bit 7 is what the mask 0x80 tests. */
  lemma Bit7Mask(x: nat)
    ensures Bit7(x) <==> (x / 0x80) % 2 == 1
  {
    assert Pow2(7) == 0x80;
  }

  /** Bitwise OR, the C# `a | b`, defined on the binary digits from the lowest up. */
  function Or(a: nat, b: nat): nat
    decreases a + b
  {
    if a == 0 then b
    else if b == 0 then a
    else 2 * Or(a / 2, b / 2) + (if a % 2 == 1 || b % 2 == 1 then 1 else 0)
  }

  /** Bitwise exclusive OR, the C# `a ^ b`. */
  function Xor(a: nat, b: nat): nat
    decreases a + b
  {
    if a == 0 then b
    else if b == 0 then a
    else 2 * Xor(a / 2, b / 2) + (if a % 2 != b % 2 then 1 else 0)
  }

  /** OR-ing a value below 2^k into a multiple of 2^k is addition: the bit ranges are disjoint. */
  lemma {:induction false} OrDisjoint(m: nat, b: nat, k: nat)
    requires b < Pow2(k)
    ensures Or(m * Pow2(k), b) == m * Pow2(k) + b
  {
    if k > 0 && m > 0 && b > 0 {
      var h := m * Pow2(k - 1);
      assert m * Pow2(k) == 2 * h;
      OrDisjoint(m, b / 2, k - 1);
      assert Or(2 * h, b) == 2 * Or(h, b / 2) + b % 2;
    }
  }

  /** OR is symmetric. */
  lemma {:induction false} OrCommutes(a: nat, b: nat)
    ensures Or(a, b) == Or(b, a)
    decreases a + b
  {
    if a != 0 && b != 0 {
      OrCommutes(a / 2, b / 2);
    }
  }

  /** OR-ing in 1 always sets bit 0. */
  lemma OrOneIsOdd(a: nat)
    ensures Or(a, 1) % 2 == 1
  {
  }

  /** XOR of two values below 2^k stays below 2^k (a byte XOR a byte is a byte). */
  lemma {:induction false} XorBound(a: nat, b: nat, k: nat)
    requires a < Pow2(k) && b < Pow2(k)
    ensures Xor(a, b) < Pow2(k)
  {
    if k > 0 && a > 0 && b > 0 {
      XorBound(a / 2, b / 2, k - 1);
    }
  }

  /** A byte XOR a byte is a byte, unchanged by the `(byte)` cast. */
  lemma XorByte(a: Byte, b: Byte)
    ensures Xor(a, b) < 0x100 && Xor(a, b) % 0x100 == Xor(a, b)
  {
    XorBound(a, b, 8);
  }

  /** Bit 0 of `a ^ b` is set exactly when bit 0 of `a` and of `b` differ. */
  lemma XorLowBit(a: nat, b: nat)
    ensures Xor(a, b) % 2 == (if a % 2 != b % 2 then 1 else 0)
  {
  }

  /** XOR with itself clears every bit. */
  lemma {:induction false} XorSelf(a: nat)
    ensures Xor(a, a) == 0
    decreases a
  {
    if a != 0 {
      XorSelf(a / 2);
    }
  }

  /** Bit `i` of `x`, the test `((x >> i) & 1) == 1`. */
  predicate Bit(x: nat, i: nat)
  {
    (x / Pow2(i)) % 2 == 1
  }

  /** The quotient is the unique `t` with `x == d * t + r` and `0 <= r < d`. */
  lemma DivIsQuotient(x: int, d: int, t: int, r: int)
    requires d > 0 && x == d * t + r && 0 <= r < d
    ensures x / d == t
  {
    var k := x / d - t;
    assert d * k == r - x % d by {
      assert x == d * (x / d) + x % d;
      assert d * (x / d) == d * t + d * k;
    }
    if k > 0 {
      MulGrows(d, k);
    } else if k < 0 {
      assert d * (-k) == -(d * k);
      MulGrows(d, -k);
    }
  }

  lemma MulGrows(d: int, k: int)
    requires d > 0 && k > 0
    ensures d * k >= d
  {
    assert d * k == d + d * (k - 1);
  }

  /** Halving, then dividing by `p`, is dividing by `2 * p`. */
  lemma HalfThenDivide(x: nat, p: nat)
    requires p > 0
    ensures (x / 2) / p == x / (2 * p)
  {
    var h := x / 2;
    var t, u := h / p, h % p;
    assert x == (2 * p) * t + (2 * u + x % 2);
    DivIsQuotient(x, 2 * p, t, 2 * u + x % 2);
  }

  /** Bit `i + 1` of `x` is bit `i` of `x >> 1`. */
  lemma BitOfHalf(x: nat, i: nat)
    ensures Bit(x, i + 1) == Bit(x / 2, i)
  {
    HalfThenDivide(x, Pow2(i));
  }

  /** Zero has no bit set. */
  lemma BitOfZero(i: nat)
    ensures !Bit(0, i)
  {
  }

  /** `1 << j` has exactly bit `j` set. */
  lemma {:induction false} BitOfPow2(j: nat, i: nat)
    ensures Bit(Pow2(j), i) == (i == j)
  {
    if i == 0 {
      if j > 0 {
        assert Pow2(j) == 2 * Pow2(j - 1);
      }
    } else {
      BitOfHalf(Pow2(j), i - 1);
      if j > 0 {
        assert Pow2(j) / 2 == Pow2(j - 1);
        BitOfPow2(j - 1, i - 1);
      } else {
        assert Pow2(j) / 2 == 0;
        BitOfZero(i - 1);
      }
    }
  }

  /** Bit `i` of `a ^ b` is set exactly when bit `i` of `a` and of `b` differ. */
  lemma {:induction false} BitOfXor(a: nat, b: nat, i: nat)
    ensures Bit(Xor(a, b), i) == (Bit(a, i) != Bit(b, i))
    decreases i
  {
    if a == 0 {
      BitOfZero(i);
    } else if b == 0 {
      BitOfZero(i);
    } else if i == 0 {
      XorLowBit(a, b);
    } else {
      var x := Xor(a / 2, b / 2);
      assert Xor(a, b) / 2 == x;
      BitOfHalf(Xor(a, b), i - 1);
      BitOfHalf(a, i - 1);
      BitOfHalf(b, i - 1);
      BitOfXor(a / 2, b / 2, i - 1);
    }
  }

  /** A byte with bit `j` inverted, `b ^ (1 << j)`: every other bit is kept. */
  function FlipBit(b: Byte, j: nat): (c: Byte)
    requires j < 8
    ensures forall i :: Bit(c, i) == (Bit(b, i) != (i == j))
  {
    assert Pow2(j) <= Pow2(7) by {
      PowMonotone(j, 7);
    }
    assert Pow2(7) == 0x80 && Pow2(8) == 0x100;
    XorBound(b, Pow2(j), 8);
    forall i
      ensures Bit(Xor(b, Pow2(j)), i) == (Bit(b, i) != (i == j))
    {
      BitOfXor(b, Pow2(j), i);
      BitOfPow2(j, i);
    }
    Xor(b, Pow2(j))
  }

  lemma {:induction false} PowMonotone(j: nat, k: nat)
    requires j <= k
    ensures Pow2(j) <= Pow2(k)
    decreases k
  {
    if j < k {
      PowMonotone(j, k - 1);
    }
  }

  /** XOR with a fixed mask undoes itself. */
  lemma {:induction false} XorCancel(a: nat, b: nat)
    ensures Xor(Xor(a, b), b) == a
    decreases a + b
  {
    if a != 0 && b != 0 {
      XorCancel(a / 2, b / 2);
      var x := Xor(a / 2, b / 2);
      var bit := if a % 2 != b % 2 then 1 else 0;
      assert Xor(a, b) == 2 * x + bit;
      if 2 * x + bit == 0 {
        XorSelf(b / 2);
      }
    } else if a != 0 {
      assert Xor(a, 0) == a;
    } else {
      XorSelf(b);
    }
  }
}
