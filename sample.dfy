/** The unpacking of the 8-byte data burst read from register 0xF7 (BME280Driver.cs, Update). */
module RawData {
  import opened Bits

  const DataStart: Byte := 0xF7
  const BurstLength: nat := 8

  /** The three raw ADC counts of one measurement. */
  datatype RawSample = RawSample(pressure: int, temperature: int, humidity: int)

  predicate InRange(r: RawSample)
  {
    0 <= r.pressure < 0x100000 && 0 <= r.temperature < 0x100000 && 0 <= r.humidity < 0x10000
  }

  /**
   * `msb << 12 | lsb << 4 | xlsb >> 4`: a 20-bit count, the low nibble of
   * `xlsb` dropped.
   */
  function Raw20(msb: Byte, lsb: Byte, xlsb: Byte): (v: int)
    ensures v == msb * 0x1000 + lsb * 0x10 + xlsb / 0x10
    ensures 0 <= v < 0x100000
  {
    var m, l, x := msb as int, lsb as int, xlsb as int;
    assert Pow2(12) == 0x1000 && Pow2(4) == 0x10;
    OrDisjoint(m * 0x100, l, 8);
    assert m * 0x1000 == (m * 0x100) * 0x10;
    OrDisjoint(m * 0x100 + l, x / 0x10, 4);
    OrDisjoint(m, l * 0x10, 12);
    Or(Or(m * 0x1000, l * 0x10), x / 0x10)
  }

  /** `lsb | msb << 8`: a 16-bit count, big-endian in the burst. */
  function Raw16(msb: Byte, lsb: Byte): (v: int)
    ensures v == msb * 0x100 + lsb
    ensures 0 <= v < 0x10000
  {
    assert Pow2(8) == 0x100;
    OrDisjoint(msb, lsb, 8);
    OrCommutes(lsb as int, msb as int * 0x100);
    Or(lsb as int, msb as int * 0x100)
  }

  /** The raw counts of a data burst: pressure from bytes 0..2, temperature from 3..5, humidity from 6..7. */
  function Decode(buf: seq<Byte>): (r: RawSample)
    requires |buf| == BurstLength
    ensures InRange(r)
  {
    RawSample(
      pressure := Raw20(buf[0], buf[1], buf[2]),
      temperature := Raw20(buf[3], buf[4], buf[5]),
      humidity := Raw16(buf[6], buf[7]))
  }

  /** The burst a sensor reporting `r` sends, with the unused low nibbles of bytes 2 and 5 clear. */
  function Encode(r: RawSample): (buf: seq<Byte>)
    requires InRange(r)
    ensures |buf| == BurstLength
  {
    [r.pressure / 0x1000, (r.pressure / 0x10) % 0x100, (r.pressure % 0x10) * 0x10,
     r.temperature / 0x1000, (r.temperature / 0x10) % 0x100, (r.temperature % 0x10) * 0x10,
     r.humidity / 0x100, r.humidity % 0x100]
  }

  /** A 20-bit count split into its three burst bytes reads back as itself. */
  lemma Split20(v: int)
    requires 0 <= v < 0x100000
    ensures Raw20(v / 0x1000, (v / 0x10) % 0x100, (v % 0x10) * 0x10) == v
  {
    var q := v / 0x10;
    assert v == q * 0x10 + v % 0x10;
    assert q == (q / 0x100) * 0x100 + q % 0x100;
    assert q / 0x100 == v / 0x1000;
    assert ((v % 0x10) * 0x10) / 0x10 == v % 0x10;
  }

  /** Three burst bytes read as a count and split again give the bytes, less the low nibble of the last. */
  lemma Join20(msb: Byte, lsb: Byte, xlsb: Byte)
    ensures var v := Raw20(msb, lsb, xlsb);
            v / 0x1000 == msb && (v / 0x10) % 0x100 == lsb && (v % 0x10) * 0x10 == xlsb / 0x10 * 0x10
  {
    var v := Raw20(msb, lsb, xlsb);
    var n := xlsb / 0x10;
    var q := msb as int * 0x100 + lsb as int;
    assert v == q * 0x10 + n;
    assert v / 0x10 == q && v % 0x10 == n;
    assert q / 0x100 == msb && q % 0x100 == lsb;
    assert v / 0x1000 == q / 0x100;
  }

  /** Decoding the burst of any in-range sample gives it back. */
  lemma DecodeEncode(r: RawSample)
    requires InRange(r)
    ensures Decode(Encode(r)) == r
  {
    Split20(r.pressure);
    Split20(r.temperature);
  }

  /** Re-encoding a decoded burst gives the burst back, less the low nibbles of bytes 2 and 5. */
  lemma EncodeDecode(buf: seq<Byte>)
    requires |buf| == BurstLength
    ensures Encode(Decode(buf)) == buf[2 := buf[2] / 0x10 * 0x10][5 := buf[5] / 0x10 * 0x10]
  {
    Join20(buf[0], buf[1], buf[2]);
    Join20(buf[3], buf[4], buf[5]);
    var e := Encode(Decode(buf));
    var t := buf[2 := buf[2] / 0x10 * 0x10][5 := buf[5] / 0x10 * 0x10];
    assert e[0] == t[0] && e[1] == t[1] && e[2] == t[2] && e[3] == t[3];
    assert e[4] == t[4] && e[5] == t[5] && e[6] == t[6] && e[7] == t[7];
  }

  /** The low nibbles of bytes 2 and 5 never reach a count. */
  lemma DecodeIgnoresLowNibbles(buf: seq<Byte>, x2: Byte, x5: Byte)
    requires |buf| == BurstLength
    requires x2 / 0x10 == buf[2] / 0x10 && x5 / 0x10 == buf[5] / 0x10
    ensures Decode(buf[2 := x2][5 := x5]) == Decode(buf)
  {
  }
}
