/**
 * The CRC-8 over the calibration block (BME280Driver.cs, CalculateCrc):
 * register preset 0xFF, polynomial 0x1D, most significant bit first, result
 * inverted. The source consumes the input byte by shifting it left in place.
 */
module Crc {
  import opened Bits

  const Polynomial: Byte := 0x1D
  const InitialRegister: Byte := 0xFF
  const FinalXor: Byte := 0xFF
  /** The inner loop's bound: one iteration per bit of a byte. */
  const BitsPerByte: nat := 8

  /** `(x & 0x7F) << 1` on a byte: shift left by one, bit 7 dropped. */
  function ShiftOut(x: Byte): Byte
  {
    (x % 0x80) * 2
  }

  /**
   * One inner iteration: `din` is bit 7 of the register XOR bit 7 of the
   * byte; the register is shifted left with bit 7 dropped and XORed with the
   * polynomial when `din` is set. Bit 0 of the new register is `din`.
   */
  function CrcBit(reg: Byte, b: Byte): (r: Byte)
    ensures r % 2 == (if Bit7(reg) != Bit7(b) then 1 else 0)
  {
    var shifted := ShiftOut(reg);
    if Bit7(reg) != Bit7(b) then
      XorByte(shifted, Polynomial);
      XorLowBit(shifted, Polynomial);
      Xor(shifted, Polynomial)
    else
      shifted
  }

  /** The input byte after `n` of its bits have been shifted out. */
  function ShiftedBy(b: Byte, n: nat): Byte
  {
    if n == 0 then b else ShiftOut(ShiftedBy(b, n - 1))
  }

  /** The register after the first `n` bits of `b`, most significant first. */
  function CrcBits(reg: Byte, b: Byte, n: nat): Byte
  {
    if n == 0 then reg else CrcBit(CrcBits(reg, b, n - 1), ShiftedBy(b, n - 1))
  }

  /** The register after all eight bits of `b`. */
  function CrcByte(reg: Byte, b: Byte): Byte
  {
    CrcBits(reg, b, BitsPerByte)
  }

  /** The register after the bytes of `s`, first to last. */
  function CrcFold(reg: Byte, s: seq<Byte>): Byte
  {
    if s == [] then reg else CrcByte(CrcFold(reg, s[..|s| - 1]), s[|s| - 1])
  }

  /** The CRC of `s`: the final register XOR 0xFF. */
  function Crc8(s: seq<Byte>): Byte
  {
    XorBound(CrcFold(InitialRegister, s), FinalXor, 8);
    Xor(CrcFold(InitialRegister, s), FinalXor)
  }

  /** After `n` shifts, the byte holds its original bits moved up by `n`, truncated to 8 bits. */
  lemma {:induction false} ShiftedByValue(b: Byte, n: nat)
    ensures ShiftedBy(b, n) == (b * Pow2(n)) % 0x100
  {
    if n > 0 {
      ShiftedByValue(b, n - 1);
      var p := Pow2(n - 1);
      var x := b * p;
      assert ShiftedBy(b, n) == ShiftOut(x % 0x100);
      ShiftOutMod(x);
      assert b * Pow2(n) == 2 * x by {
        assert Pow2(n) == 2 * p;
        MulTwice(b, p);
      }
    }
  }

  lemma MulTwice(b: nat, p: nat)
    ensures b * (2 * p) == 2 * (b * p)
  {
  }

  /** Shifting a truncated value left by one and dropping bit 7 is doubling modulo 256. */
  lemma ShiftOutMod(x: nat)
    ensures ShiftOut(x % 0x100) == (2 * x) % 0x100
  {
    var q, r := x / 0x100, x % 0x100;
    if r < 0x80 {
      ModAfterMultiple(2 * q, 2 * r);
    } else {
      ModAfterMultiple(2 * q + 1, 2 * r - 0x100);
    }
  }

  lemma ModAfterMultiple(k: int, c: int)
    requires 0 <= c < 0x100
    ensures (0x100 * k + c) % 0x100 == c
  {
  }

  /** Consuming a byte shifts all eight of its bits out: the byte ends up 0. */
  lemma ShiftedOutAfterEight(b: Byte)
    ensures ShiftedBy(b, BitsPerByte) == 0
  {
    ShiftedByValue(b, 8);
    assert Pow2(8) == 0x100;
    ModAfterMultiple(b, 0);
  }

  /** The CRC of the empty buffer is 0x00. */
  lemma CrcOfEmpty()
    ensures Crc8([]) == 0
  {
    XorSelf(0xFF);
  }

  /** Folding a concatenation is folding its parts in turn: the CRC can be computed byte by byte. */
  lemma {:induction false} CrcFoldAppend(reg: Byte, s: seq<Byte>, t: seq<Byte>)
    ensures CrcFold(reg, s + t) == CrcFold(CrcFold(reg, s), t)
    decreases |t|
  {
    if t != [] {
      var last := |t| - 1;
      assert (s + t)[..|s + t| - 1] == s + t[..last];
      assert (s + t)[|s + t| - 1] == t[last];
      CrcFoldAppend(reg, s, t[..last]);
    } else {
      assert s + t == s;
    }
  }

  /** The fold seen from the front: the first byte is consumed first, with the preset register. */
  lemma CrcFoldFirst(reg: Byte, b: Byte, s: seq<Byte>)
    ensures CrcFold(reg, [b] + s) == CrcFold(CrcByte(reg, b), s)
  {
    CrcFoldAppend(reg, [b], s);
    assert [b][..0] == [];
  }

  /** Inverting the CRC gives back the final register. */
  lemma CrcInvertsRegister(s: seq<Byte>)
    ensures Xor(Crc8(s), FinalXor) == CrcFold(InitialRegister, s)
  {
    XorCancel(CrcFold(InitialRegister, s), FinalXor);
  }

  /** The source's inner loop body, on the register and the current byte, is one `CrcBit` and one `ShiftOut`. */
  lemma InnerStep(reg: Byte, b: Byte)
    ensures var din := if ((reg / 0x80) % 2 == 1) != ((b / 0x80) % 2 == 1) then 1 else 0;
            Xor(((reg % 0x80) * 2) % 0x10000, Polynomial * din) % 0x10000 == CrcBit(reg, b)
    ensures ((b % 0x80) * 2) % 0x100 == ShiftOut(b)
  {
    var shifted := ShiftOut(reg);
    assert ((reg % 0x80) * 2) % 0x10000 == shifted;
    Bit7Mask(reg);
    Bit7Mask(b);
    if Bit7(reg) != Bit7(b) {
      PolynomialApplied(shifted);
    } else {
      assert Xor(shifted, Polynomial * 0) == shifted;
    }
  }

  /** With `din` set, the 16-bit register receives the polynomial, and stays a byte. */
  lemma PolynomialApplied(shifted: Byte)
    ensures Xor(shifted, Polynomial * 1) % 0x10000 == Xor(shifted, Polynomial)
  {
    XorByte(shifted, Polynomial);
  }

  /** The source's final step, `(byte)(crcReg ^ 0xFF)`, on the folded register is `Crc8`. */
  lemma FinalInversion(s: seq<Byte>, reg: nat)
    requires reg == CrcFold(InitialRegister, s)
    ensures Xor(reg, FinalXor) % 0x100 == Crc8(s)
  {
    XorByte(reg, FinalXor);
  }

  /**
   * CalculateCrc: the CRC of the buffer's original contents, computed in
   * place; every byte of the buffer is 0 afterwards.
   */
  method CalculateCrc(buffer: array<Byte>) returns (crc: Byte)
    modifies buffer
    ensures crc == Crc8(old(buffer[..]))
    ensures forall i :: 0 <= i < buffer.Length ==> buffer[i] == 0
  {
    ghost var input := buffer[..];
    var crcReg: nat := 0xFF;
    var index := 0;
    while index < buffer.Length
      invariant 0 <= index <= buffer.Length
      invariant crcReg < 0x100
      invariant crcReg == CrcFold(InitialRegister, input[..index])
      invariant forall i :: 0 <= i < index ==> buffer[i] == 0
      invariant forall i :: index <= i < buffer.Length ==> buffer[i] == input[i]
    {
      crcReg := CrcInnerLoop(buffer, index, crcReg);
      assert input[..index + 1][..index] == input[..index];
      index := index + 1;
    }
    assert input[..index] == input;
    crc := Xor(crcReg, FinalXor) % 0x100;                          // (byte)(crcReg ^ 0xFF)
    FinalInversion(input, crcReg);
  }

  /**
   * The inner loop of CalculateCrc for one index: the eight bits of
   * `buffer[index]`, most significant first, go into the register, and the
   * byte is shifted left once per bit.
   */
  method CrcInnerLoop(buffer: array<Byte>, index: nat, crcIn: nat) returns (crcReg: nat)
    requires index < buffer.Length && crcIn < 0x100
    modifies buffer
    ensures crcReg == CrcByte(crcIn, old(buffer[index]))
    ensures buffer[index] == 0
    ensures forall i :: 0 <= i < buffer.Length && i != index ==> buffer[i] == old(buffer[i])
  {
    ghost var original := buffer[index];
    crcReg := crcIn;
    var bitNo := 0;
    while bitNo < 8
      invariant 0 <= bitNo <= 8
      invariant crcReg == CrcBits(crcIn, original, bitNo)
      invariant buffer[index] == ShiftedBy(original, bitNo)
      invariant forall i :: 0 <= i < buffer.Length && i != index ==> buffer[i] == old(buffer[i])
    {
      ghost var reg, cur := crcReg, buffer[index];
      var din := if ((crcReg / 0x80) % 2 == 1) != ((buffer[index] / 0x80) % 2 == 1) then 1 else 0;  // ((crcReg & 0x80) > 0) ^ ((buffer[index] & 0x80) > 0)
      crcReg := ((crcReg % 0x80) * 2) % 0x10000;                 // (ushort)((crcReg & 0x7F) << 1)
      buffer[index] := ((buffer[index] % 0x80) * 2) % 0x100;     // (byte)((buffer[index] & 0x7F) << 1)
      crcReg := Xor(crcReg, Polynomial * din) % 0x10000;          // (ushort)(crcReg ^ (polynomial * din))
      assert crcReg == CrcBit(reg, cur) && buffer[index] == ShiftOut(cur) by {
        InnerStep(reg, cur);
      }
      bitNo := bitNo + 1;
    }
    ShiftedOutAfterEight(original);
  }
  /** Bit `i` of the shifted-left byte is bit `i - 1` of the byte before. */
  lemma ShiftOutBit(x: Byte, i: nat)
    requires 0 < i < BitsPerByte
    ensures Bit(ShiftOut(x), i) == Bit(x, i - 1)
  {
    BitOfHalf(ShiftOut(x), i - 1);
    assert ShiftOut(x) / 2 == x % 0x80;
    LowBitsKept(x, i - 1);
  }

  /** Dropping bit 7 (`x & 0x7F`) keeps bits 0 to 6. */
  lemma LowBitsKept(x: Byte, m: nat)
    requires m < 7
    ensures Bit(x % 0x80, m) == Bit(x, m)
  {
    var p, e := Pow2(m), Pow2(6 - m);
    var h := x / 0x80;
    PowSplit(m);
    ScaledHigh(p, e, h);
    assert x == x % 0x80 + p * (2 * (e * h));
    ParityAfterMultiple(x % 0x80, p, e * h);
  }

  /** 0x80 is 2^m times the even number 2^(7-m). */
  lemma PowSplit(m: nat)
    requires m < 7
    ensures Pow2(m) * (2 * Pow2(6 - m)) == 0x80
  {
    PowAdd(m, 6 - m);
    assert Pow2(6) == 0x40;
  }

  lemma ScaledHigh(p: int, e: int, h: int)
    requires p * (2 * e) == 0x80
    ensures p * (2 * (e * h)) == 0x80 * h
  {
    assert p * (2 * (e * h)) == (p * (2 * e)) * h;
  }

  /** Adding an even multiple of `p` leaves bit 0 of the quotient by `p` unchanged. */
  lemma ParityAfterMultiple(y: nat, p: nat, k: nat)
    requires p > 0
    ensures ((y + p * (2 * k)) / p) % 2 == (y / p) % 2
  {
    DivAddMultiple(y, p, 2 * k);
  }

  lemma DivAddMultiple(y: nat, p: nat, c: nat)
    requires p > 0
    ensures (y + p * c) / p == y / p + c
  {
    DivIsQuotient(y + p * c, p, y / p + c, y % p);
  }

  lemma {:induction false} PowAdd(a: nat, b: nat)
    ensures Pow2(a + b) == Pow2(a) * Pow2(b)
  {
    if a > 0 {
      PowAdd(a - 1, b);
    }
  }

  /** After `m` shifts, bit `i` of the byte is bit `i - m` of the original. */
  lemma {:induction false} ShiftedBits(b: Byte, m: nat, i: nat)
    requires m <= i < BitsPerByte
    ensures Bit(ShiftedBy(b, m), i) == Bit(b, i - m)
  {
    if m > 0 {
      ShiftOutBit(ShiftedBy(b, m - 1), i);
      ShiftedBits(b, m - 1, i - 1);
    }
  }

  /** For a fixed input byte, one CRC step sends different registers to different registers. */
  lemma CrcBitInjective(r1: Byte, r2: Byte, x: Byte)
    requires r1 != r2
    ensures CrcBit(r1, x) != CrcBit(r2, x)
  {
    if Bit7(r1) == Bit7(r2) {
      assert ShiftOut(r1) != ShiftOut(r2);
      if Bit7(r1) != Bit7(x) {
        XorCancel(ShiftOut(r1), Polynomial);
        XorCancel(ShiftOut(r2), Polynomial);
      }
    }
  }

  /** Different registers stay different through any number of bits of the same byte. */
  lemma {:induction false} CrcBitsInjective(r1: Byte, r2: Byte, b: Byte, n: nat)
    requires r1 != r2
    ensures CrcBits(r1, b, n) != CrcBits(r2, b, n)
  {
    if n > 0 {
      CrcBitsInjective(r1, r2, b, n - 1);
      CrcBitInjective(CrcBits(r1, b, n - 1), CrcBits(r2, b, n - 1), ShiftedBy(b, n - 1));
    }
  }

  /** Different registers stay different through any sequence of bytes. */
  lemma {:induction false} CrcFoldInjective(r1: Byte, r2: Byte, s: seq<Byte>)
    requires r1 != r2
    ensures CrcFold(r1, s) != CrcFold(r2, s)
    decreases |s|
  {
    if s != [] {
      var front := s[..|s| - 1];
      CrcFoldInjective(r1, r2, front);
      CrcBitsInjective(CrcFold(r1, front), CrcFold(r2, front), s[|s| - 1], BitsPerByte);
    }
  }

  /** Bit 7 of the byte after `m` shifts is bit `7 - m` of the original. */
  lemma ShiftedBit7(b: Byte, m: nat)
    requires m < BitsPerByte
    ensures Bit7(ShiftedBy(b, m)) == Bit(b, 7 - m)
  {
    ShiftedBits(b, m, 7);
  }

  /**
   * One CRC step from two registers and two bytes: equal registers stay
   * equal exactly when the bytes agree in bit 7, and different registers
   * stay different when the bytes agree in bit 7.
   */
  lemma CrcBitCompare(r1: Byte, r2: Byte, x1: Byte, x2: Byte)
    ensures r1 == r2 ==> (CrcBit(r1, x1) == CrcBit(r2, x2) <==> Bit7(x1) == Bit7(x2))
    ensures r1 != r2 && Bit7(x1) == Bit7(x2) ==> CrcBit(r1, x1) != CrcBit(r2, x2)
  {
    if r1 != r2 {
      CrcBitInjective(r1, r2, x1);
    }
  }

  /** `c` is `b` with bit `j` inverted and every other bit kept. */
  ghost predicate OnlyBitDiffers(b: Byte, c: Byte, j: nat)
  {
    forall i :: Bit(c, i) == (Bit(b, i) != (i == j))
  }

  /**
   * Two bytes that differ only in bit `j`, run through the inner loop from
   * the same register: the registers agree until that bit reaches bit 7,
   * and differ from then on.
   */
  lemma {:induction false} CrcBitsAfterFlip(reg: Byte, b: Byte, c: Byte, j: nat, n: nat)
    requires j < BitsPerByte && n <= BitsPerByte
    requires OnlyBitDiffers(b, c, j)
    ensures (CrcBits(reg, b, n) == CrcBits(reg, c, n)) == (n + j <= 7)
  {
    if n > 0 {
      CrcBitsAfterFlip(reg, b, c, j, n - 1);
      FlipStep(reg, b, c, j, n);
    }
  }

  /**
   * The `n`-th inner step on the two bytes: equal registers stay equal until
   * the flipped bit reaches bit 7, and become different when it does;
   * different registers stay different on every other step.
   */
  lemma FlipStep(reg: Byte, b: Byte, c: Byte, j: nat, n: nat)
    requires j < BitsPerByte && 0 < n <= BitsPerByte
    requires OnlyBitDiffers(b, c, j)
    ensures CrcBits(reg, b, n - 1) == CrcBits(reg, c, n - 1) ==>
              ((CrcBits(reg, b, n) == CrcBits(reg, c, n)) == (n - 1 + j != 7))
    ensures CrcBits(reg, b, n - 1) != CrcBits(reg, c, n - 1) && n - 1 + j != 7 ==>
              CrcBits(reg, b, n) != CrcBits(reg, c, n)
  {
    FlippedBitReachesTop(b, c, j, n - 1);
    CrcBitCompare(CrcBits(reg, b, n - 1), CrcBits(reg, c, n - 1), ShiftedBy(b, n - 1), ShiftedBy(c, n - 1));
  }

  /** The two bytes, shifted `m` times, differ in bit 7 exactly when the flipped bit `j` has reached it. */
  lemma FlippedBitReachesTop(b: Byte, c: Byte, j: nat, m: nat)
    requires j < BitsPerByte && m < BitsPerByte
    requires OnlyBitDiffers(b, c, j)
    ensures (Bit7(ShiftedBy(b, m)) == Bit7(ShiftedBy(c, m))) == (m + j != 7)
  {
    ShiftedBit7(b, m);
    ShiftedBit7(c, m);
    assert Bit(c, 7 - m) == (Bit(b, 7 - m) != (7 - m == j));
  }

  /**
   * The CRC detects every single-bit error: inverting bit `j` of byte `k`
   * of the input always changes the checksum.
   */
  lemma CrcDetectsSingleBitFlip(s: seq<Byte>, k: nat, j: nat)
    requires k < |s| && j < BitsPerByte
    ensures Crc8(s[k := FlipBit(s[k], j)]) != Crc8(s)
  {
    var c := FlipBit(s[k], j);
    var flipped := s[k := c];
    var front, back := s[..k], s[k + 1..];
    assert s == front + [s[k]] + back;
    assert flipped == front + [c] + back;
    var reg := CrcFold(InitialRegister, front);
    CrcFoldAppend(InitialRegister, front + [s[k]], back);
    CrcFoldAppend(InitialRegister, front + [c], back);
    CrcFoldAppend(InitialRegister, front, [s[k]]);
    CrcFoldAppend(InitialRegister, front, [c]);
    assert CrcFold(reg, [s[k]]) == CrcByte(reg, s[k]);
    assert CrcFold(reg, [c]) == CrcByte(reg, c);
    CrcBitsAfterFlip(reg, s[k], c, j, BitsPerByte);
    CrcFoldInjective(CrcByte(reg, s[k]), CrcByte(reg, c), back);
    CrcInvertsRegister(s);
    CrcInvertsRegister(flipped);
  }
}
