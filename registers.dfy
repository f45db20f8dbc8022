/**
 * The three control registers written by WriteSettings, ChangeSettings and
 * TakeForcedReading (BME280Driver.cs). Each setting is the numeric code of
 * its enum member, a byte; the codes themselves are not part of this model.
 */
module ControlRegisters {
  import opened Bits

  const HumidityControl: Byte := 0xF2
  const MeasurementControl: Byte := 0xF4
  const Config: Byte := 0xF5

  /** The driver's settings properties. */
  datatype Settings = Settings(
    mode: Byte,
    osrTemperature: Byte,
    osrPressure: Byte,
    osrHumidity: Byte,
    filter: Byte,
    standby: Byte)

  /** `humiReg`: the humidity oversampling code itself, neither shifted nor masked. */
  function HumidityByte(s: Settings): Byte
  {
    s.osrHumidity
  }

  /** `measReg`: `(byte)(osrT << 5 | osrP << 3 | mode)`. */
  function MeasurementByte(s: Settings): Byte
  {
    Or(Or(s.osrTemperature as int * 0x20, s.osrPressure as int * 0x08), s.mode) % 0x100
  }

  /** `confReg`: `(byte)(standby << 5 | filter << 3 | 1)`. */
  function ConfigByte(s: Settings): Byte
  {
    Or(Or(s.standby as int * 0x20, s.filter as int * 0x08), 1) % 0x100
  }

  /** The two-byte register writes of WriteSettings, in the order they are issued. */
  function SettingsWrites(s: Settings): seq<seq<Byte>>
  {
    [[HumidityControl, HumidityByte(s)], [Config, ConfigByte(s)], [MeasurementControl, MeasurementByte(s)]]
  }

  /** Bit 0 of the config byte is always set, whatever the standby time and filter. */
  lemma ConfigBit0Set(s: Settings)
    ensures ConfigByte(s) % 2 == 1
  {
    var x := Or(s.standby as int * 0x20, s.filter as int * 0x08);
    OrOneIsOdd(x);
    assert Or(x, 1) % 0x100 % 2 == Or(x, 1) % 2;
  }

  /**
   * When the codes fit their fields (osrT and standby in 3 bits, osrP and
   * filter in 2, mode in 3) the ORs do not overlap: the byte is the sum.
   */
  lemma MeasurementByteFields(s: Settings)
    requires s.osrTemperature < 8 && s.osrPressure < 4 && s.mode < 8
    ensures MeasurementByte(s) == s.osrTemperature * 0x20 + s.osrPressure * 0x08 + s.mode
  {
    OrFields(s.osrTemperature, s.osrPressure, s.mode);
  }

  lemma ConfigByteFields(s: Settings)
    requires s.standby < 8 && s.filter < 4
    ensures ConfigByte(s) == s.standby * 0x20 + s.filter * 0x08 + 1
  {
    OrFields(s.standby, s.filter, 1);
  }

  /** `high << 5 | middle << 3 | low` on fields of 3, 2 and 3 bits is their sum, and fits a byte. */
  lemma OrFields(high: nat, middle: nat, low: nat)
    requires high < 8 && middle < 4 && low < 8
    ensures Or(Or(high * 0x20, middle * 0x08), low) == high * 0x20 + middle * 0x08 + low
    ensures high * 0x20 + middle * 0x08 + low < 0x100
  {
    assert Pow2(3) == 0x08;
    assert Pow2(5) == 0x20 by {
      assert Pow2(5) == 4 * Pow2(3);
    }
    OrDisjoint(high, middle * 0x08, 5);
    var upper := Or(high * 0x20, middle * 0x08);
    assert upper == high * 0x20 + middle * 0x08;
    assert upper == (high * 4 + middle) * Pow2(3);
    OrDisjoint(high * 4 + middle, low, 3);
  }

  /** Within those field widths the measurement byte can be decoded back into its three codes. */
  lemma MeasurementByteDecodes(s: Settings)
    requires s.osrTemperature < 8 && s.osrPressure < 4 && s.mode < 8
    ensures MeasurementByte(s) / 0x20 == s.osrTemperature
    ensures (MeasurementByte(s) / 0x08) % 4 == s.osrPressure
    ensures MeasurementByte(s) % 0x08 == s.mode
  {
    MeasurementByteFields(s);
    FieldsDecode(s.osrTemperature, s.osrPressure, s.mode);
  }

  /** Within those field widths the config byte can be decoded back into standby time and filter. */
  lemma ConfigByteDecodes(s: Settings)
    requires s.standby < 8 && s.filter < 4
    ensures ConfigByte(s) / 0x20 == s.standby
    ensures (ConfigByte(s) / 0x08) % 4 == s.filter
  {
    ConfigByteFields(s);
    FieldsDecode(s.standby, s.filter, 1);
  }

  /** A byte laid out as 3 + 2 + 3 bits gives its fields back. */
  lemma FieldsDecode(high: int, middle: int, low: int)
    requires 0 <= high < 8 && 0 <= middle < 4 && 0 <= low < 8
    ensures (high * 0x20 + middle * 0x08 + low) / 0x20 == high
    ensures ((high * 0x20 + middle * 0x08 + low) / 0x08) % 4 == middle
    ensures (high * 0x20 + middle * 0x08 + low) % 0x08 == low
  {
    var v := high * 0x20 + middle * 0x08 + low;
    assert v == 0x08 * (high * 4 + middle) + low;
    assert v / 0x08 == high * 4 + middle;
    assert v == 0x20 * high + (middle * 0x08 + low);
  }

  /**
   * With the shift of 3 the pressure field reaches bit 5, the lowest bit of
   * the temperature field: a pressure code of 4 hides whether that
   * temperature bit was set.
   */
  lemma MeasurementFieldsOverlap()
    ensures MeasurementByte(Settings(0, 1, 4, 0, 0, 0)) == MeasurementByte(Settings(0, 0, 4, 0, 0, 0))
  {
  }
}
