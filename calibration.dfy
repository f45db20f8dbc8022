/**
 * Decoding of the 33-byte calibration block into the compensation
 * coefficients (BME280Driver.cs, LoadCalibration). Offsets 0..25 come from
 * the window at register 0x88, offsets 26..32 from the window at 0xE1.
 */
module Calibration {
  import opened Bits

  const BlockLength: nat := 33
  /** Offset 24 is read from the sensor but no coefficient uses it. */
  const UnusedOffset: nat := 24

  /** The coefficient record `BME280CFData`, each field as the integer it holds. */
  datatype Coefficients = Coefficients(
    t1: int, t2: int, t3: int,
    p1: int, p2: int, p3: int, p4: int, p5: int, p6: int, p7: int, p8: int, p9: int,
    h1: int, h2: int, h3: int, h4: int, h5: int, h6: int)

  predicate IsUInt16(v: int) { 0 <= v < 0x10000 }
  predicate IsInt16(v: int) { -0x8000 <= v < 0x8000 }
  predicate IsUInt8(v: int) { 0 <= v < 0x100 }
  predicate IsInt8(v: int) { -0x80 <= v < 0x80 }
  predicate IsUInt12(v: int) { 0 <= v < 0x1000 }

  /** The ranges the decoded fields can take: H4 and H5 are 12-bit and never negative. */
  predicate InRange(c: Coefficients)
  {
    IsUInt16(c.t1) && IsInt16(c.t2) && IsInt16(c.t3) &&
    IsUInt16(c.p1) && IsInt16(c.p2) && IsInt16(c.p3) && IsInt16(c.p4) && IsInt16(c.p5) &&
    IsInt16(c.p6) && IsInt16(c.p7) && IsInt16(c.p8) && IsInt16(c.p9) &&
    IsUInt8(c.h1) && IsInt16(c.h2) && IsUInt8(c.h3) && IsUInt12(c.h4) && IsUInt12(c.h5) && IsInt8(c.h6)
  }

  /** `BitConverter.ToUInt16(buf, offset)`: little-endian, low byte first. */
  function ToUInt16(buf: seq<Byte>, offset: nat): (v: int)
    requires offset + 2 <= |buf|
    ensures IsUInt16(v)
  {
    buf[offset] as int + buf[offset + 1] as int * 0x100
  }

  /** The `(short)` cast: the 16-bit pattern `u` read as two's complement. */
  function AsInt16(u: int): (v: int)
    requires IsUInt16(u)
    ensures IsInt16(v) && v % 0x10000 == u
  {
    if u < 0x8000 then u else u - 0x10000
  }

  /** `BitConverter.ToInt16(buf, offset)`. */
  function ToInt16(buf: seq<Byte>, offset: nat): (v: int)
    requires offset + 2 <= |buf|
    ensures IsInt16(v)
    ensures v % 0x10000 == buf[offset] as int + buf[offset + 1] as int * 0x100
  {
    AsInt16(ToUInt16(buf, offset))
  }

  /** The `(sbyte)` cast. */
  function AsInt8(b: Byte): (v: int)
    ensures IsInt8(v) && v % 0x100 == b
  {
    if b < 0x80 then b else b - 0x100
  }

  /**
   * `(short)((high << 4) | nibble)`: the byte `high` above a 4-bit nibble.
   * The result is below 0x1000, so the cast never makes it negative.
   */
  function Pack12(high: Byte, nibble: nat): (v: int)
    requires nibble < 0x10
    ensures v == high * 0x10 + nibble && IsUInt12(v)
  {
    OrDisjoint(high, nibble, 4);
    AsInt16(Or(high as int * 0x10, nibble))
  }

  /** LoadCalibration's object initialiser over the 33-byte block. */
  function Decode(buf: seq<Byte>): (c: Coefficients)
    requires |buf| == BlockLength
    ensures InRange(c)
  {
    Coefficients(
      t1 := ToUInt16(buf, 0),
      t2 := ToInt16(buf, 2),
      t3 := ToInt16(buf, 4),
      p1 := ToUInt16(buf, 6),
      p2 := ToInt16(buf, 8),
      p3 := ToInt16(buf, 10),
      p4 := ToInt16(buf, 12),
      p5 := ToInt16(buf, 14),
      p6 := ToInt16(buf, 16),
      p7 := ToInt16(buf, 18),
      p8 := ToInt16(buf, 20),
      p9 := ToInt16(buf, 22),
      h1 := buf[25],
      h2 := ToInt16(buf, 26),
      h3 := buf[28],
      h4 := Pack12(buf[29], buf[30] % 0x10),
      h5 := Pack12(buf[31], buf[30] / 0x10),
      h6 := AsInt8(buf[32]))
  }

  /** Low byte of the 16-bit pattern of `v`. */
  function Lo(v: int): Byte { (v % 0x10000) % 0x100 }

  /** High byte of the 16-bit pattern of `v`. */
  function Hi(v: int): Byte { (v % 0x10000) / 0x100 }

  /** The twelve 16-bit coefficients in block order: T1..T3 at offsets 0..5, P1..P9 at 6..23. */
  function Words(c: Coefficients): seq<int>
  {
    [c.t1, c.t2, c.t3, c.p1, c.p2, c.p3, c.p4, c.p5, c.p6, c.p7, c.p8, c.p9]
  }

  /** The byte at offset `i` of the block of `c`; `filler` stands at the unused offset 24. */
  function EncodedByte(c: Coefficients, filler: Byte, i: nat): Byte
    requires InRange(c) && i < BlockLength
  {
    if i < UnusedOffset then
      (if i % 2 == 0 then Lo(Words(c)[i / 2]) else Hi(Words(c)[i / 2]))
    else if i == UnusedOffset then filler
    else if i == 25 then c.h1
    else if i == 26 then Lo(c.h2)
    else if i == 27 then Hi(c.h2)
    else if i == 28 then c.h3
    else if i == 29 then c.h4 / 0x10
    else if i == 30 then c.h4 % 0x10 + (c.h5 % 0x10) * 0x10
    else if i == 31 then c.h5 / 0x10
    else c.h6 % 0x100
  }

  /** The block a sensor holding coefficients `c` presents. The inverse of `Decode`. */
  function Encode(c: Coefficients, filler: Byte): (buf: seq<Byte>)
    requires InRange(c)
    ensures |buf| == BlockLength && buf[UnusedOffset] == filler
  {
    seq(BlockLength, i requires 0 <= i < BlockLength => EncodedByte(c, filler, i))
  }

  /** A 16-bit value survives being split into bytes and read back little-endian. */
  lemma UInt16RoundTrip(v: int)
    requires IsUInt16(v)
    ensures Lo(v) as int + Hi(v) as int * 0x100 == v
  {
  }

  /** A signed 16-bit value survives being split into bytes and read back as `ToInt16`. */
  lemma Int16RoundTrip(v: int)
    requires IsInt16(v)
    ensures AsInt16(Lo(v) as int + Hi(v) as int * 0x100) == v
  {
    var u := v % 0x10000;
    assert Lo(v) as int + Hi(v) as int * 0x100 == u;
    if v < 0 {
      assert u == v + 0x10000;
    }
  }

  /** Two bytes read as `ToUInt16` and split again give the same bytes. */
  lemma UInt16Split(buf: seq<Byte>, offset: nat)
    requires offset + 2 <= |buf|
    ensures Lo(ToUInt16(buf, offset)) == buf[offset] && Hi(ToUInt16(buf, offset)) == buf[offset + 1]
  {
  }

  /** Two bytes read as `ToInt16` and split again give the same bytes. */
  lemma Int16Split(buf: seq<Byte>, offset: nat)
    requires offset + 2 <= |buf|
    ensures Lo(ToInt16(buf, offset)) == buf[offset] && Hi(ToInt16(buf, offset)) == buf[offset + 1]
  {
    UInt16Split(buf, offset);
  }

  /** The shared byte at offset 30 carries H4's low nibble below H5's. */
  lemma NibblesRoundTrip(h4: int, h5: int)
    requires IsUInt12(h4) && IsUInt12(h5)
    ensures var shared := h4 % 0x10 + (h5 % 0x10) * 0x10;
            shared % 0x10 == h4 % 0x10 && shared / 0x10 == h5 % 0x10
  {
  }

  /** The 12-bit value built by `Pack12` splits back into its byte and its nibble. */
  lemma NibbleSplit(high: Byte, nibble: nat)
    requires nibble < 0x10
    ensures (high * 0x10 + nibble) / 0x10 == high && (high * 0x10 + nibble) % 0x10 == nibble
  {
  }

  /** The temperature coefficients come back from their bytes. */
  lemma DecodeEncodeTemperature(c: Coefficients, filler: Byte)
    requires InRange(c)
    ensures var d := Decode(Encode(c, filler)); d.t1 == c.t1 && d.t2 == c.t2 && d.t3 == c.t3
  {
    UInt16RoundTrip(c.t1);
    Int16RoundTrip(c.t2);
    Int16RoundTrip(c.t3);
  }

  /** The pressure coefficients come back from their bytes. */
  lemma DecodeEncodePressure(c: Coefficients, filler: Byte)
    requires InRange(c)
    ensures var d := Decode(Encode(c, filler));
            d.p1 == c.p1 && d.p2 == c.p2 && d.p3 == c.p3 && d.p4 == c.p4 && d.p5 == c.p5 &&
            d.p6 == c.p6 && d.p7 == c.p7 && d.p8 == c.p8 && d.p9 == c.p9
  {
    UInt16RoundTrip(c.p1);
    Int16RoundTrip(c.p2); Int16RoundTrip(c.p3); Int16RoundTrip(c.p4); Int16RoundTrip(c.p5);
    Int16RoundTrip(c.p6); Int16RoundTrip(c.p7); Int16RoundTrip(c.p8); Int16RoundTrip(c.p9);
  }

  /** H4 and H5 come back from the three bytes they are packed into. */
  lemma PackRoundTrip(h4: int, h5: int, b29: Byte, b30: Byte, b31: Byte)
    requires IsUInt12(h4) && IsUInt12(h5)
    requires b29 == h4 / 0x10 && b30 == h4 % 0x10 + (h5 % 0x10) * 0x10 && b31 == h5 / 0x10
    ensures Pack12(b29, b30 % 0x10) == h4 && Pack12(b31, b30 / 0x10) == h5
  {
    NibblesRoundTrip(h4, h5);
  }

  /** The humidity coefficients come back, H4 and H5 through the shared nibble byte. */
  lemma DecodeEncodeHumidity(c: Coefficients, filler: Byte)
    requires InRange(c)
    ensures var d := Decode(Encode(c, filler));
            d.h1 == c.h1 && d.h2 == c.h2 && d.h3 == c.h3 && d.h4 == c.h4 && d.h5 == c.h5 && d.h6 == c.h6
  {
    var buf := Encode(c, filler);
    var shared := c.h4 % 0x10 + (c.h5 % 0x10) * 0x10;
    assert buf[26] == Lo(c.h2) && buf[27] == Hi(c.h2);
    Int16RoundTrip(c.h2);
    assert buf[29] == c.h4 / 0x10 && buf[30] == shared && buf[31] == c.h5 / 0x10;
    PackRoundTrip(c.h4, c.h5, buf[29], buf[30], buf[31]);
    assert buf[32] == c.h6 % 0x100;
    Int8RoundTrip(c.h6);
    var d := Decode(buf);
    assert d.h1 == buf[25] == c.h1;
    assert d.h2 == c.h2;
    assert d.h3 == buf[28] == c.h3;
    assert d.h4 == c.h4 && d.h5 == c.h5;
    assert d.h6 == AsInt8(buf[32]) == c.h6;
  }

  /** A signed byte survives the `(sbyte)` cast of its two's-complement pattern. */
  lemma Int8RoundTrip(v: int)
    requires IsInt8(v)
    ensures AsInt8(v % 0x100) == v
  {
  }

  /** Decoding the block of any in-range coefficients gives them back, whatever the filler. */
  lemma DecodeEncode(c: Coefficients, filler: Byte)
    requires InRange(c)
    ensures Decode(Encode(c, filler)) == c
  {
    DecodeEncodeTemperature(c, filler);
    DecodeEncodePressure(c, filler);
    DecodeEncodeHumidity(c, filler);
  }

  /** The two bytes of each 16-bit coefficient come back from the decoded value. */
  lemma WordBytes(buf: seq<Byte>, k: nat)
    requires |buf| == BlockLength && k < 12
    ensures Lo(Words(Decode(buf))[k]) == buf[2 * k] && Hi(Words(Decode(buf))[k]) == buf[2 * k + 1]
  {
    if k == 0 || k == 3 {
      UInt16Split(buf, 2 * k);
    } else {
      Int16Split(buf, 2 * k);
    }
  }

  /** Every byte of the block is determined by the coefficients and the filler at offset 24. */
  lemma EncodeDecode(buf: seq<Byte>)
    requires |buf| == BlockLength
    ensures Encode(Decode(buf), buf[UnusedOffset]) == buf
  {
    var c := Decode(buf);
    var e := Encode(c, buf[UnusedOffset]);
    forall i | 0 <= i < BlockLength
      ensures e[i] == buf[i]
    {
      if i < UnusedOffset {
        WordBytes(buf, i / 2);
      } else if i == 26 || i == 27 {
        Int16Split(buf, 26);
      } else if 29 <= i <= 31 {
        NibbleSplit(buf[29], buf[30] % 0x10);
        NibbleSplit(buf[31], buf[30] / 0x10);
      }
    }
  }

  /** Offset 24 never reaches a coefficient. */
  lemma DecodeIgnoresUnused(buf: seq<Byte>, x: Byte)
    requires |buf| == BlockLength
    ensures Decode(buf[UnusedOffset := x]) == Decode(buf)
  {
    var other := buf[UnusedOffset := x];
    EncodeDecode(buf);
    DecodeEncode(Decode(buf), x);
    assert Encode(Decode(buf), x) == other;
  }

  /** Two blocks that agree at offset 24 and decode alike are the same block. */
  lemma DecodeInjective(a: seq<Byte>, b: seq<Byte>)
    requires |a| == BlockLength && |b| == BlockLength
    requires a[UnusedOffset] == b[UnusedOffset] && Decode(a) == Decode(b)
    ensures a == b
  {
    EncodeDecode(a);
    EncodeDecode(b);
  }

  /** The cross-byte packing on bytes 0xAB, 0xCD, 0xEF at offsets 29..31: H4 takes the low nibble of 0xCD, H5 the high one. */
  lemma NibblePackingExample(buf: seq<Byte>)
    requires |buf| == BlockLength && buf[29] == 0xAB && buf[30] == 0xCD && buf[31] == 0xEF
    ensures Decode(buf).h4 == 0xABD && Decode(buf).h5 == 0xEFC
  {
  }
}
