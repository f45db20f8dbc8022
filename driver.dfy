/**
 * The driver object (`BME280Driver`): identification, reset, calibration
 * loading and control-register writes at start-up, settings changes, and
 * the raw-sample read of `Update`, all against an I2C device that answers
 * from a register map and logs every transfer.
 */
module Driver {
  import opened Bits
  import opened Wrappers
  import opened Devices
  import opened Crc
  import opened Calibration
  import opened ControlRegisters
  import opened RawData
  import Compensation

  /** The exceptions the driver raises. */
  datatype DriverError =
    | UnrecognizedChip        // the identity register did not read 0x60
    | CalibrationCrcMismatch  // the CRC register disagrees with the CRC of the calibration block
    | NotCalibrated           // `Update` dereferences calibration data that was never loaded

  const ChipIdRegister: Byte := 0xD0
  const ChipIdentity: Byte := 0x60
  const CrcRegister: Byte := 0xE8
  const CalibrationLowRegister: Byte := 0x88
  const CalibrationLowLength: nat := 26
  const CalibrationHighRegister: Byte := 0xE1
  const CalibrationHighLength: nat := 7

  /** The two bytes `Reset` writes, exactly as the source has them. */
  const ResetBytes: seq<Byte> := [0xD0, 0xE0]

  const ChipIdRead := Transfer([ChipIdRegister], 1)
  const ResetWrite := Transfer(ResetBytes, 0)
  /** The reads of `LoadCalibration`: the CRC byte, then the two parts of the block. */
  const CalibrationReads: seq<Transfer> :=
    [Transfer([CrcRegister], 1),
     Transfer([CalibrationLowRegister], CalibrationLowLength),
     Transfer([CalibrationHighRegister], CalibrationHighLength)]

  /** The device recognises itself as a BME280. */
  predicate ChipRecognized(registers: map<Byte, Byte>)
  {
    Register(registers, ChipIdRegister) == ChipIdentity
  }

  /** The 33-byte calibration block: 26 bytes from 0x88, then 7 bytes from 0xE1. */
  function CalibrationBlock(registers: map<Byte, Byte>): (r: seq<Byte>)
    ensures |r| == BlockLength
    ensures r[..CalibrationLowLength] == Burst(registers, CalibrationLowRegister, CalibrationLowLength)
    ensures r[CalibrationLowLength..] == Burst(registers, CalibrationHighRegister, CalibrationHighLength)
  {
    Burst(registers, CalibrationLowRegister, CalibrationLowLength)
      + Burst(registers, CalibrationHighRegister, CalibrationHighLength)
  }

  /** The CRC byte stored by the device matches the calibration block. */
  predicate CalibrationCrcMatches(registers: map<Byte, Byte>)
  {
    Register(registers, CrcRegister) == Crc8(CalibrationBlock(registers))
  }

  /** Plain writes, as the device logs them: transfers that read nothing. */
  function Writing(ws: seq<seq<Byte>>): (r: seq<Transfer>)
    ensures |r| == |ws|
    ensures forall i :: 0 <= i < |ws| ==> r[i] == Transfer(ws[i], 0)
  {
    if ws == [] then [] else Writing(ws[..|ws| - 1]) + [Transfer(ws[|ws| - 1], 0)]
  }

  /** The bytes of every write in a log, in order; reads are skipped. */
  function Writes(log: seq<Transfer>): seq<seq<Byte>>
  {
    if log == [] then []
    else Writes(log[..|log| - 1]) + (if log[|log| - 1].readLength == 0 then [log[|log| - 1].written] else [])
  }

  /** The transfers `Initialize` issues on a device with the given registers, the settings being `s`. */
  function InitializeLog(registers: map<Byte, Byte>, s: Settings): seq<Transfer>
  {
    [ChipIdRead]
      + if !ChipRecognized(registers) then []
        else [ResetWrite] + CalibrationReads
             + if CalibrationCrcMatches(registers) then Writing(SettingsWrites(s)) else []
  }

  /** The writes of a log can be taken part by part. */
  lemma {:induction false} WritesAppend(a: seq<Transfer>, b: seq<Transfer>)
    ensures Writes(a + b) == Writes(a) + Writes(b)
    decreases |b|
  {
    if b == [] {
      assert a + b == a;
    } else {
      var last := |b| - 1;
      assert (a + b)[..|a + b| - 1] == a + b[..last];
      assert (a + b)[|a + b| - 1] == b[last];
      WritesAppend(a, b[..last]);
    }
  }

  /** A sequence of plain writes shows up in the log as exactly those writes. */
  lemma {:induction false} WritesOfWriting(ws: seq<seq<Byte>>)
    ensures Writes(Writing(ws)) == ws
  {
    if ws != [] {
      var init := ws[..|ws| - 1];
      WritesOfWriting(init);
      WritesAppend(Writing(init), [Transfer(ws[|ws| - 1], 0)]);
      assert Writes([Transfer(ws[|ws| - 1], 0)]) == [ws[|ws| - 1]] by {
        assert [Transfer(ws[|ws| - 1], 0)][..0] == [];
      }
      assert init + [ws[|ws| - 1]] == ws;
    }
  }

  /** A log of reads only contains no writes. */
  lemma {:induction false} WritesOfReads(log: seq<Transfer>)
    requires forall i :: 0 <= i < |log| ==> log[i].readLength > 0
    ensures Writes(log) == []
  {
    if log != [] {
      WritesOfReads(log[..|log| - 1]);
    }
  }

  /** The reads of `Initialize` contribute no writes. */
  lemma InitializeReadsWriteNothing()
    ensures Writes([ChipIdRead]) == []
    ensures Writes(CalibrationReads) == []
  {
    WritesOfReads([ChipIdRead]);
    WritesOfReads(CalibrationReads);
  }

  /** The single reset transfer is a write of the reset bytes. */
  lemma ResetWrites()
    ensures Writes([ResetWrite]) == [ResetBytes]
  {
    assert [ResetWrite][..0] == [];
  }

  /** An unrecognised chip is left without a single write: not even the reset goes out. */
  lemma InitializeUnknownChipWritesNothing(registers: map<Byte, Byte>, s: Settings)
    requires !ChipRecognized(registers)
    ensures Writes(InitializeLog(registers, s)) == []
  {
    InitializeReadsWriteNothing();
    assert InitializeLog(registers, s) == [ChipIdRead];
  }

  /**
   * A successful start-up writes the reset bytes, then humidity control
   * (0xF2), config (0xF5) and measurement control (0xF4), in that order,
   * and nothing else.
   */
  lemma InitializeWriteOrder(registers: map<Byte, Byte>, s: Settings)
    requires ChipRecognized(registers) && CalibrationCrcMatches(registers)
    ensures Writes(InitializeLog(registers, s)) == [ResetBytes] + SettingsWrites(s)
    ensures Writes(InitializeLog(registers, s)) ==
              [[0xD0, 0xE0], [0xF2, HumidityByte(s)], [0xF5, ConfigByte(s)], [0xF4, MeasurementByte(s)]]
  {
    var settings := Writing(SettingsWrites(s));
    InitializeReadsWriteNothing();
    WritesOfWriting(SettingsWrites(s));
    WritesAppend([ResetWrite], CalibrationReads + settings);
    WritesAppend(CalibrationReads, settings);
    WritesAppend([ChipIdRead], [ResetWrite] + (CalibrationReads + settings));
    ResetWrites();
    assert InitializeLog(registers, s) == [ChipIdRead] + ([ResetWrite] + (CalibrationReads + settings));
  }

  /** A CRC mismatch happens after the reset: the reset is the only write. */
  lemma InitializeCrcMismatchWritesReset(registers: map<Byte, Byte>, s: Settings)
    requires ChipRecognized(registers) && !CalibrationCrcMatches(registers)
    ensures Writes(InitializeLog(registers, s)) == [ResetBytes]
  {
    InitializeReadsWriteNothing();
    WritesAppend([ResetWrite], CalibrationReads);
    WritesAppend([ChipIdRead], [ResetWrite] + CalibrationReads);
    ResetWrites();
    assert InitializeLog(registers, s) == [ChipIdRead] + ([ResetWrite] + CalibrationReads);
  }

  /** A log grown step by step is the starting log followed by the steps, as `InitializeLog` nests them. */
  lemma LogGrowth(start: seq<Transfer>, a: seq<Transfer>, b: seq<Transfer>, c: seq<Transfer>, d: seq<Transfer>)
    ensures start + a + b + c + d == start + (a + (b + c + d))
    ensures start + a + b + c == start + (a + (b + c + []))
  {
  }

  /** A new byte array holding `s` (the source's `new byte[] { ... }`). */
  method NewBytes(s: seq<Byte>) returns (a: array<Byte>)
    ensures fresh(a) && a[..] == s
  {
    a := new Byte[|s|](i requires 0 <= i < |s| => s[i]);
  }

  class Bme280Driver {
    const device: I2cDevice
    /** The numeric code of `BME280SensorMode.Forced`. */
    const forcedMode: Byte
    var tFine: int
    var rawHumidity: int
    var rawPressure: int
    var rawTemperature: int
    var calibration: Option<Coefficients>
    var isInitialized: bool
    var settings: Settings

    /** A driver on `device`, with the settings properties at their initial values `defaults`. */
    constructor (device: I2cDevice, defaults: Settings, forcedMode: Byte)
      ensures this.device == device && this.forcedMode == forcedMode && settings == defaults
      ensures !isInitialized && calibration == None
      ensures tFine == 0 && rawHumidity == 0 && rawPressure == 0 && rawTemperature == 0
    {
      this.device := device;
      this.forcedMode := forcedMode;
      settings := defaults;
      isInitialized := false;
      calibration := None;
      tFine, rawHumidity, rawPressure, rawTemperature := 0, 0, 0, 0;
    }

    /** `_device.Write(new byte[] { ... })`. */
    method WriteBytes(bytes: seq<Byte>)
      modifies device
      ensures device.log == old(device.log) + [Transfer(bytes, 0)]
    {
      var command := NewBytes(bytes);
      device.Write(command);
    }

    /** `_device.WriteRead(new byte[] { start }, 0, 1, buffer, offset, length)`: a burst read into `buffer`. */
    method ReadRegisters(start: Byte, buffer: array<Byte>, offset: nat, length: nat)
      requires offset + length <= buffer.Length
      modifies device, buffer
      ensures device.log == old(device.log) + [Transfer([start], length)]
      ensures buffer[..] == old(buffer[..offset]) + Burst(device.registers, start, length) + old(buffer[offset + length..])
    {
      var command := NewBytes([start]);
      assert command[0..1] == [start];
      device.WriteRead(command, 0, 1, buffer, offset, length);
    }

    /** `ChipId`: reads one byte from 0xD0 and rejects anything but 0x60. */
    method ChipId() returns (outcome: Outcome<DriverError>)
      modifies device
      ensures device.log == old(device.log) + [ChipIdRead]
      ensures outcome == (if ChipRecognized(device.registers) then Pass else Fail(UnrecognizedChip))
    {
      var buffer := new Byte[1];
      ReadRegisters(ChipIdRegister, buffer, 0, buffer.Length);
      assert buffer[0] == Register(device.registers, ChipIdRegister);
      if buffer[0] != ChipIdentity {
        return Fail(UnrecognizedChip);
      }
      return Pass;
    }

    /** `Reset`: writes `{0xD0, 0xE0}` (the delay after it is not modelled). */
    method Reset()
      modifies device
      ensures device.log == old(device.log) + [ResetWrite]
    {
      WriteBytes(ResetBytes);
    }

    /**
     * `LoadCalibration`: reads the CRC byte and the 33-byte block, decodes
     * the coefficients from the block as read, and only then checks the
     * CRC, so the coefficients are stored even when the check fails.
     */
    method LoadCalibration() returns (outcome: Outcome<DriverError>)
      modifies device, this`calibration
      ensures device.log == old(device.log) + CalibrationReads
      ensures calibration == Some(Calibration.Decode(CalibrationBlock(device.registers)))
      ensures outcome == (if CalibrationCrcMatches(device.registers) then Pass else Fail(CalibrationCrcMismatch))
    {
      var crcBuffer := new Byte[1];
      ReadRegisters(CrcRegister, crcBuffer, 0, crcBuffer.Length);
      var storedCrc := crcBuffer[0];
      assert storedCrc == Register(device.registers, CrcRegister);

      var calibrationBuffer := ReadCalibrationBlock();
      calibration := Some(Calibration.Decode(calibrationBuffer[..]));

      var crc := CalculateCrc(calibrationBuffer);
      if storedCrc != crc {
        return Fail(CalibrationCrcMismatch);
      }
      return Pass;
    }

    /** The two burst reads that fill the 33-byte calibration buffer: offsets 0..25, then 26..32. */
    method ReadCalibrationBlock() returns (buffer: array<Byte>)
      modifies device
      ensures fresh(buffer) && buffer[..] == CalibrationBlock(device.registers)
      ensures device.log == old(device.log) + CalibrationReads[1..]
    {
      buffer := new Byte[BlockLength];
      ReadRegisters(CalibrationLowRegister, buffer, 0, CalibrationLowLength);
      ghost var low := buffer[..CalibrationLowLength];
      ReadRegisters(CalibrationHighRegister, buffer, CalibrationLowLength, CalibrationHighLength);
      assert buffer[..] == low + Burst(device.registers, CalibrationHighRegister, CalibrationHighLength) + [];
    }

    /** `WriteSettings`: the three control-register writes, in the order 0xF2, 0xF5, 0xF4. */
    method WriteSettings()
      modifies device
      ensures device.log == old(device.log) + Writing(SettingsWrites(settings))
    {
      WriteBytes([HumidityControl, HumidityByte(settings)]);
      WriteBytes([Config, ConfigByte(settings)]);
      WriteBytes([MeasurementControl, MeasurementByte(settings)]);
    }

    /**
     * `Initialize`: chip id, reset, calibration, settings; the driver counts
     * as initialised only when every step got through.
     */
    method Initialize() returns (outcome: Outcome<DriverError>)
      modifies device, this`calibration, this`isInitialized
      ensures device.log == old(device.log) + InitializeLog(device.registers, settings)
      ensures outcome == Pass <==> ChipRecognized(device.registers) && CalibrationCrcMatches(device.registers)
      ensures !ChipRecognized(device.registers) ==>
                outcome == Fail(UnrecognizedChip) && calibration == old(calibration)
      ensures ChipRecognized(device.registers) ==>
                calibration == Some(Calibration.Decode(CalibrationBlock(device.registers)))
      ensures ChipRecognized(device.registers) && !CalibrationCrcMatches(device.registers) ==>
                outcome == Fail(CalibrationCrcMismatch)
      ensures isInitialized == (old(isInitialized) || outcome == Pass)
    {
      ghost var start := device.log;
      outcome := ChipId();
      if outcome.Fail? {
        return;
      }
      Reset();
      outcome := LoadCalibration();
      ghost var steps := if outcome.Fail? then [] else Writing(SettingsWrites(settings));
      if outcome.Fail? {
        LogGrowth(start, [ChipIdRead], [ResetWrite], CalibrationReads, steps);
        return;
      }
      WriteSettings();
      LogGrowth(start, [ChipIdRead], [ResetWrite], CalibrationReads, steps);
      isInitialized := true;
    }

    /**
     * `ChangeSettings`: takes the mode, the three oversamplings and the
     * standby time; the filter argument is ignored and the filter kept.
     * Then the registers are rewritten.
     */
    method ChangeSettings(mode: Byte, osrTemperature: Byte, osrPressure: Byte, osrHumidity: Byte,
                          filter: Byte, standby: Byte)
      modifies device, this`settings
      ensures settings.mode == mode && settings.standby == standby
      ensures settings.osrTemperature == osrTemperature && settings.osrPressure == osrPressure
      ensures settings.osrHumidity == osrHumidity
      ensures settings.filter == old(settings.filter)
      ensures device.log == old(device.log) + Writing(SettingsWrites(settings))
    {
      settings := settings.(mode := mode, osrPressure := osrPressure, osrHumidity := osrHumidity,
                            osrTemperature := osrTemperature, standby := standby);
      WriteSettings();
    }

    /** `TakeForcedReading`: the measurement-control write that starts one conversion (the delay is not modelled). */
    method TakeForcedReading()
      modifies device
      ensures device.log == old(device.log) + [Transfer([MeasurementControl, MeasurementByte(settings)], 0)]
    {
      WriteBytes([MeasurementControl, MeasurementByte(settings)]);
    }

    /**
     * `Update`: in forced mode, first triggers a conversion; then reads the
     * 8-byte burst from 0xF7 and unpacks the raw counts. The fine
     * temperature is computed from the calibration in floating point, which
     * is not modelled: `fine` is its value. Without calibration data the
     * source fails on that computation, after the raw counts are stored.
     */
    method Update(fine: int) returns (outcome: Outcome<DriverError>)
      modifies device, this`rawHumidity, this`rawPressure, this`rawTemperature, this`tFine
      ensures device.log == old(device.log)
                            + (if settings.mode == forcedMode
                               then [Transfer([MeasurementControl, MeasurementByte(settings)], 0)] else [])
                            + [Transfer([DataStart], BurstLength)]
      ensures RawSample(rawPressure, rawTemperature, rawHumidity)
              == RawData.Decode(Burst(device.registers, DataStart, BurstLength))
      ensures calibration == None ==> outcome == Fail(NotCalibrated) && tFine == old(tFine)
      ensures calibration != None ==> outcome == Pass && tFine == fine
    {
      if settings.mode == forcedMode {
        TakeForcedReading();
      }
      var buffer := new Byte[BurstLength];
      ReadRegisters(DataStart, buffer, 0, buffer.Length);
      var raw := RawData.Decode(buffer[..]);
      rawHumidity := raw.humidity;
      rawPressure := raw.pressure;
      rawTemperature := raw.temperature;
      if calibration == None {
        return Fail(NotCalibrated);
      }
      tFine := fine;
      return Pass;
    }

    /** The `Temperature` property, in degrees Celsius. */
    function Temperature(): (t: real)
      reads this
      ensures Compensation.TemperatureMin <= t <= Compensation.TemperatureMax
    {
      Compensation.Temperature(tFine)
    }

    /** The `Pressure` property, in pascal; none when there is no calibration data to dereference. */
    function Pressure(): (p: Option<real>)
      reads this
      ensures p.Some? <==> calibration.Some?
      ensures p.Some? ==> Compensation.PressureMin <= p.value <= Compensation.PressureMax
    {
      if calibration.None? then None
      else Some(Compensation.Pressure(tFine, rawPressure, calibration.value))
    }

    /** The `Humidity` property, in percent relative humidity; none without calibration data. */
    function Humidity(): (h: Option<real>)
      reads this
      ensures h.Some? <==> calibration.Some?
      ensures h.Some? ==> Compensation.HumidityMin <= h.value <= Compensation.HumidityMax
    {
      if calibration.None? then None
      else Some(Compensation.Humidity(tFine, rawHumidity, calibration.value))
    }
  }
}
