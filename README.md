# BME280 driver for TinyCLR: a verified model

This project models the byte-level core of the Monoculture BME280 driver for
GHI TinyCLR. The BME280 is a temperature, pressure and humidity sensor. The
model covers two classes:

- `BME280Driver`. It does the following:
  - identifies the chip;
  - resets it;
  - reads and decodes the 33-byte calibration block and checks the block's CRC-8;
  - encodes and writes the three control registers;
  - unpacks the 8-byte raw-sample burst.
- `BME280BusWrapper`. It gives I2C and SPI one write-then-read interface.
  - On I2C the call passes straight through.
  - On SPI the write span and the read span share one full-duplex frame.

The model is split into these modules:

| module | file | contents |
|---|---|---|
| `Bits` | `bits.dfy` | bytes and powers of two; C#'s `\|` and `^` on non-negative integers (`Or`, `Xor`) |
| `Crc` | `crc.dfy` | the CRC-8: a reference definition (`Crc8`, a per-byte fold) and the in-place nested loop of the source (`CalculateCrc`); the proof that every single-bit error changes the CRC |
| `Calibration` | `calibration.dfy` | the 18 coefficients decoded from the 33-byte block, an encoder, and the round trips between them |
| `ControlRegisters` | `registers.dfy` | the `ctrl_hum`, `config` and `ctrl_meas` bytes, built exactly as the source shifts and ORs them |
| `RawData` | `sample.dfy` | the 20-bit pressure and temperature counts and the 16-bit humidity count, with an encoder and round trips |
| `Compensation` | `compensation.dfy` | the clamp and guard structure of the three output properties, over exact reals |
| `Devices` | `devices.dfy` | stand-ins for the TinyCLR `I2cDevice` and `SpiDevice`, plus `Array.Copy` |
| `Transport` | `transport.dfy` | `BME280BusWrapper` as a class |
| `Driver` | `driver.dfy` | `BME280Driver` as a class, with the start-up sequence and its log of transfers |

The stand-in I2C device answers reads from a fixed register map. A burst read
starts at the register named by the first written byte and auto-increments
from there. The device logs every transfer as the bytes written plus the
number of bytes read, so a plain write is a transfer that reads nothing.
The stand-in SPI device answers every frame with a fixed function of the
frame, of the same length. The driver's exceptions become `Outcome` values.
Each error path is modelled at the point where the source throws, with
everything the source did before the throw still in effect.

H4 and H5 share calibration byte 30: H4 takes its low nibble and H5 its high
nibble. Bytes 0xAB, 0xCD, 0xEF at offsets 29-31 therefore decode to
H4 = 0xABD and H5 = 0xEFC (`Calibration.NibblePackingExample`).

## Model

| member | source | states |
|---|---|---|
| Crc.CalculateCrc | Source/Monoculture.TinyCLR.Drivers.BME280/BME280Driver.cs:129-155 | The returned byte is `Crc8` of the buffer's original contents, and afterwards every byte of the buffer is 0. The loop invariants keep the register in 0..255 and equal to the per-byte fold of the bytes consumed so far. |
| Crc.CrcInnerLoop | Source/Monoculture.TinyCLR.Drivers.BME280/BME280Driver.cs:137-151 | After the eight inner iterations the register is `CrcByte` of the register and the original byte. The byte at `index` is 0, and every other buffer byte is unchanged. |
| Crc.ShiftOut | Source/Monoculture.TinyCLR.Drivers.BME280/BME280Driver.cs:146-148 | Defines `(x & 0x7F) << 1` on a byte, the shift applied to both the register and the buffer byte. `Crc.ShiftedByValue` proves that repeating it n times multiplies by 2^n mod 256. |
| Crc.CrcBits | Source/Monoculture.TinyCLR.Drivers.BME280/BME280Driver.cs:137-151 | The reference register after the first n inner iterations: `CrcBit` applied to the register and to the byte shifted n-1 times. `Crc.CrcInnerLoop` keeps the register equal to it as a loop invariant. |
| Crc.ShiftedBy | Source/Monoculture.TinyCLR.Drivers.BME280/BME280Driver.cs:148 | The buffer byte after n passes of the inner loop: `ShiftOut` applied n times. `Crc.CrcInnerLoop` keeps `buffer[index]` equal to it, and `Crc.ShiftedByValue` and `Crc.ShiftedBits` state its value and its bits. |
| Crc.CrcByte | Source/Monoculture.TinyCLR.Drivers.BME280/BME280Driver.cs:137-151 | The reference register after all eight bits of one byte. `Crc.CrcInnerLoop` returns it. |
| Crc.CrcFold | Source/Monoculture.TinyCLR.Drivers.BME280/BME280Driver.cs:135-152 | The reference per-byte fold over the buffer, first byte first. `Crc.CalculateCrc` proves the outer loop computes it, and `Crc.CrcFoldAppend` proves it splits over concatenation. |
| Crc.Crc8 | Source/Monoculture.TinyCLR.Drivers.BME280/BME280Driver.cs:131-154 | The reference CRC: the fold from the preset 0xFF, XORed with 0xFF. `Crc.CrcOfEmpty`, `Crc.CrcInvertsRegister` and `Crc.CrcDetectsSingleBitFlip` state its properties. |
| Crc.CrcBit | Source/Monoculture.TinyCLR.Drivers.BME280/BME280Driver.cs:139-150 | Bit 0 of the register after one step is `din`: bit 7 of the register XOR bit 7 of the byte. |
| Crc.InnerStep | Source/Monoculture.TinyCLR.Drivers.BME280/BME280Driver.cs:139-150 | The source's inner-loop body is the model's step. The register is shifted left with bit 7 dropped and XORed with 0x1D when `din` is set; the byte is shifted left with bit 7 dropped. |
| Crc.ShiftedByValue | Source/Monoculture.TinyCLR.Drivers.BME280/BME280Driver.cs:148 | After n shifts the buffer byte equals its value times 2^n, mod 256. |
| Crc.ShiftedOutAfterEight | Source/Monoculture.TinyCLR.Drivers.BME280/BME280Driver.cs:137-148 | Eight shifts leave every buffer byte 0. |
| Crc.CrcOfEmpty | Source/Monoculture.TinyCLR.Drivers.BME280/BME280Driver.cs:131-154 | The CRC of the empty buffer is 0x00: preset 0xFF, inverted by 0xFF. |
| Crc.CrcFoldAppend | Source/Monoculture.TinyCLR.Drivers.BME280/BME280Driver.cs:135-152 | The fold over a concatenation is the fold over the second part, started from the register left by the first part. |
| Crc.CrcFoldFirst | Source/Monoculture.TinyCLR.Drivers.BME280/BME280Driver.cs:135-152 | The first byte is consumed first, starting from the preset register. |
| Crc.CrcInvertsRegister | Source/Monoculture.TinyCLR.Drivers.BME280/BME280Driver.cs:154 | XORing the CRC with 0xFF gives back the final register, so the final inversion loses nothing. |
| Crc.FinalInversion | Source/Monoculture.TinyCLR.Drivers.BME280/BME280Driver.cs:154 | `(byte)(crcReg ^ 0xFF)` on the folded register is `Crc8`. |
| Crc.CrcDetectsSingleBitFlip | Source/Monoculture.TinyCLR.Drivers.BME280/BME280Driver.cs:125-155 | Inverting any one bit of any byte of the input always changes the CRC. So the comparison with the stored CRC rejects every single-bit corruption of the calibration block. |
| Crc.CrcFoldInjective | Source/Monoculture.TinyCLR.Drivers.BME280/BME280Driver.cs:135-152 | Two different registers stay different through any byte sequence. |
| Crc.CrcBitInjective | Source/Monoculture.TinyCLR.Drivers.BME280/BME280Driver.cs:139-150 | For a fixed buffer byte, one inner step sends two different registers to two different registers. |
| Crc.CrcBitsAfterFlip | Source/Monoculture.TinyCLR.Drivers.BME280/BME280Driver.cs:137-151 | Take two bytes that differ only in bit j, fed through the inner loop from the same register. The registers agree until that bit has been shifted up to bit 7, and differ on every step after. |
| Crc.ShiftedBits | Source/Monoculture.TinyCLR.Drivers.BME280/BME280Driver.cs:148 | After m shifts, bit i of the buffer byte is bit i - m of the original byte. |
| Bits.BitOfXor | Source/Monoculture.TinyCLR.Drivers.BME280/BME280Driver.cs:150 | Bit i of `a ^ b` is set exactly when bit i of `a` and bit i of `b` differ. |
| Bits.Or | Source/Monoculture.TinyCLR.Drivers.BME280/BME280Driver.cs:178-182 | Defines C#'s `\|` on non-negative integers digit by digit. `ControlRegisters.OrFields` proves it is addition on disjoint fields. |
| Bits.Xor | Source/Monoculture.TinyCLR.Drivers.BME280/BME280Driver.cs:150 | Defines C#'s `^` on non-negative integers digit by digit. `Bits.BitOfXor` gives its meaning bit by bit. |
| Bits.Bit7 | Source/Monoculture.TinyCLR.Drivers.BME280/BME280Driver.cs:141 | Defines the test `(x & 0x80) > 0` as bit 7 of `x`, the same `Bits.Bit` used for every other position. `Crc.CrcBit` branches on it. |
| Bits.Bit7Mask | Source/Monoculture.TinyCLR.Drivers.BME280/BME280Driver.cs:141 | Bit 7 is set exactly when `x / 0x80` is odd, the mask test written in the source; `Crc.CrcInnerLoop` computes `din` in that form. |
| Calibration.ToUInt16 | Source/Monoculture.TinyCLR.Drivers.BME280/BME280Driver.cs:105 | `BitConverter.ToUInt16` gives a value in 0..65535. |
| Calibration.AsInt16 | Source/Monoculture.TinyCLR.Drivers.BME280/BME280Driver.cs:106 | A 16-bit pattern read as two's complement lies in -32768..32767 and agrees with the pattern mod 2^16. |
| Calibration.ToInt16 | Source/Monoculture.TinyCLR.Drivers.BME280/BME280Driver.cs:106-118 | `BitConverter.ToInt16` lies in -32768..32767 and agrees mod 2^16 with the little-endian pattern `buf[offset] + 256 * buf[offset+1]`. |
| Calibration.AsInt8 | Source/Monoculture.TinyCLR.Drivers.BME280/BME280Driver.cs:122 | `(sbyte)b` lies in -128..127 and agrees with `b` mod 256. |
| Calibration.Pack12 | Source/Monoculture.TinyCLR.Drivers.BME280/BME280Driver.cs:120-121 | `(short)((high << 4) \| nibble)` equals high*16 + nibble and lies in 0..4095, with no sign extension. |
| Calibration.Decode | Source/Monoculture.TinyCLR.Drivers.BME280/BME280Driver.cs:103-123 | Every decoded coefficient lies in its C# type's range; H4 and H5 lie in 0..4095. |
| Calibration.Encode | Source/Monoculture.TinyCLR.Drivers.BME280/BME280Driver.cs:103-123 | The inverse layout: 33 bytes, with the byte at offset 24 left as given. |
| Calibration.UInt16Split | Source/Monoculture.TinyCLR.Drivers.BME280/BME280Driver.cs:105 | An unsigned field's low and high bytes are the buffer bytes at `offset` and `offset+1` (little-endian). |
| Calibration.Int16Split | Source/Monoculture.TinyCLR.Drivers.BME280/BME280Driver.cs:106-118 | The same for the signed fields, through two's complement. |
| Calibration.UInt16RoundTrip | Source/Monoculture.TinyCLR.Drivers.BME280/BME280Driver.cs:105 | A 16-bit value split into bytes reads back unchanged. |
| Calibration.Int16RoundTrip | Source/Monoculture.TinyCLR.Drivers.BME280/BME280Driver.cs:106-118 | A signed 16-bit value split into bytes reads back unchanged. |
| Calibration.Int8RoundTrip | Source/Monoculture.TinyCLR.Drivers.BME280/BME280Driver.cs:122 | A signed byte survives `(sbyte)` of its unsigned pattern. |
| Calibration.NibbleSplit | Source/Monoculture.TinyCLR.Drivers.BME280/BME280Driver.cs:120-121 | From high*16 + nibble, division and remainder by 16 give back `high` and `nibble`. |
| Calibration.NibblesRoundTrip | Source/Monoculture.TinyCLR.Drivers.BME280/BME280Driver.cs:120-121 | The shared byte 30 carries H4's low nibble in bits 0-3 and H5's low nibble in bits 4-7. Both read back unchanged. |
| Calibration.PackRoundTrip | Source/Monoculture.TinyCLR.Drivers.BME280/BME280Driver.cs:120-121 | Bytes 29-31 laid out from any H4 and H5 in 0..4095 decode back to that H4 and H5. |
| Calibration.DecodeEncodeTemperature | Source/Monoculture.TinyCLR.Drivers.BME280/BME280Driver.cs:105-107 | T1 (unsigned, offset 0) and T2, T3 (signed, offsets 2 and 4) survive encode-then-decode. |
| Calibration.DecodeEncodePressure | Source/Monoculture.TinyCLR.Drivers.BME280/BME280Driver.cs:108-116 | P1 (unsigned, offset 6) and P2..P9 (signed, offsets 8..22) survive encode-then-decode. |
| Calibration.DecodeEncodeHumidity | Source/Monoculture.TinyCLR.Drivers.BME280/BME280Driver.cs:117-122 | H1 = byte 25, H2 signed at offset 26, H3 = byte 28, the packed H4 and H5, and the signed H6 survive encode-then-decode. |
| Calibration.DecodeEncode | Source/Monoculture.TinyCLR.Drivers.BME280/BME280Driver.cs:103-123 | Decoding an encoded block gives back every coefficient. |
| Calibration.WordBytes | Source/Monoculture.TinyCLR.Drivers.BME280/BME280Driver.cs:105-116 | The k-th 16-bit word of the decoded block splits back into buffer bytes 2k and 2k+1. |
| Calibration.EncodeDecode | Source/Monoculture.TinyCLR.Drivers.BME280/BME280Driver.cs:103-123 | Re-encoding a decoded block, with byte 24 filled back in, gives the block: decoding loses no other bit. |
| Calibration.DecodeIgnoresUnused | Source/Monoculture.TinyCLR.Drivers.BME280/BME280Driver.cs:116-117 | Byte 24 is never read: changing it does not change the coefficients. |
| Calibration.DecodeInjective | Source/Monoculture.TinyCLR.Drivers.BME280/BME280Driver.cs:103-123 | Two blocks that agree at byte 24 and decode alike are equal. |
| Calibration.NibblePackingExample | Source/Monoculture.TinyCLR.Drivers.BME280/BME280Driver.cs:120-121 | Bytes 0xAB, 0xCD, 0xEF at offsets 29-31 give H4 = 0xABD and H5 = 0xEFC. |
| ControlRegisters.ConfigBit0Set | Source/Monoculture.TinyCLR.Drivers.BME280/BME280Driver.cs:182 | Bit 0 of the config byte is always 1. |
| ControlRegisters.HumidityByte | Source/Monoculture.TinyCLR.Drivers.BME280/BME280Driver.cs:176 | Defines `humiReg`: the humidity oversampling code itself, neither shifted nor masked. |
| ControlRegisters.MeasurementByte | Source/Monoculture.TinyCLR.Drivers.BME280/BME280Driver.cs:178-180 | Defines `measReg` as `(byte)(osrT << 5 \| osrP << 3 \| mode)`, with `Bits.Or` for `\|` and mod 256 for the cast. `TakeForcedReading` (lines 191-193) builds the same byte. Its field meaning is in `ControlRegisters.MeasurementByteFields` and `ControlRegisters.MeasurementFieldsOverlap`. |
| ControlRegisters.ConfigByte | Source/Monoculture.TinyCLR.Drivers.BME280/BME280Driver.cs:182 | Defines `confReg` as `(byte)(standby << 5 \| filter << 3 \| 1)`. `ControlRegisters.ConfigBit0Set` and `ControlRegisters.ConfigByteFields` state its properties. |
| ControlRegisters.SettingsWrites | Source/Monoculture.TinyCLR.Drivers.BME280/BME280Driver.cs:184-186 | Defines the three two-byte writes of `WriteSettings` in their order: `{0xF2, humiReg}`, then `{0xF5, confReg}`, then `{0xF4, measReg}`. `Driver.Bme280Driver.WriteSettings` logs exactly these. |
| ControlRegisters.MeasurementByteFields | Source/Monoculture.TinyCLR.Drivers.BME280/BME280Driver.cs:178-180 | When the codes fit 3, 2 and 3 bits, the measurement byte is osrT*32 + osrP*8 + mode. |
| ControlRegisters.ConfigByteFields | Source/Monoculture.TinyCLR.Drivers.BME280/BME280Driver.cs:182 | When standby fits 3 bits and filter fits 2, the config byte is standby*32 + filter*8 + 1. |
| ControlRegisters.OrFields | Source/Monoculture.TinyCLR.Drivers.BME280/BME280Driver.cs:178-182 | `high << 5 \| middle << 3 \| low` on fields of 3, 2 and 3 bits is their sum, below 256. |
| ControlRegisters.MeasurementByteDecodes | Source/Monoculture.TinyCLR.Drivers.BME280/BME280Driver.cs:178-180 | Under those widths, the measurement byte gives back osrT, osrP and mode. |
| ControlRegisters.ConfigByteDecodes | Source/Monoculture.TinyCLR.Drivers.BME280/BME280Driver.cs:182 | Under those widths, the config byte gives back standby and filter. |
| ControlRegisters.MeasurementFieldsOverlap | Source/Monoculture.TinyCLR.Drivers.BME280/BME280Driver.cs:178-179 | With the shift of 3, a pressure code of 4 reaches bit 5 and hides the lowest bit of the temperature code: two different settings give one byte. |
| RawData.Raw20 | Source/Monoculture.TinyCLR.Drivers.BME280/BME280Driver.cs:211-213 | `msb << 12 \| lsb << 4 \| xlsb >> 4` equals msb*4096 + lsb*16 + xlsb div 16 and lies in [0, 2^20). |
| RawData.Raw16 | Source/Monoculture.TinyCLR.Drivers.BME280/BME280Driver.cs:209 | `lsb \| msb << 8` equals msb*256 + lsb and lies in [0, 65535]. |
| RawData.Decode | Source/Monoculture.TinyCLR.Drivers.BME280/BME280Driver.cs:209-213 | All three raw counts are in range. |
| RawData.Split20 | Source/Monoculture.TinyCLR.Drivers.BME280/BME280Driver.cs:211-213 | A 20-bit count split into msb, lsb and the high nibble of xlsb reads back as itself. |
| RawData.Join20 | Source/Monoculture.TinyCLR.Drivers.BME280/BME280Driver.cs:211-213 | A 20-bit count gives back its msb, its lsb and the high nibble of its xlsb. |
| RawData.DecodeEncode | Source/Monoculture.TinyCLR.Drivers.BME280/BME280Driver.cs:209-213 | Decoding an encoded sample gives the sample back. |
| RawData.EncodeDecode | Source/Monoculture.TinyCLR.Drivers.BME280/BME280Driver.cs:209-213 | Re-encoding a decoded burst gives the burst with the low nibbles of bytes 2 and 5 cleared, and nothing else changed. |
| RawData.DecodeIgnoresLowNibbles | Source/Monoculture.TinyCLR.Drivers.BME280/BME280Driver.cs:211-213 | The low nibbles of bytes 2 and 5 do not affect the counts. |
| Compensation.Clamp | Source/Monoculture.TinyCLR.Drivers.BME280/BME280Driver.cs:235-238 | The result lies in [lo, hi]. It is the input when the input is inside, and the violated bound otherwise. |
| Compensation.Temperature | Source/Monoculture.TinyCLR.Drivers.BME280/BME280Driver.cs:226-242 | The temperature lies in [-40, 85]. |
| Compensation.TemperatureInRange | Source/Monoculture.TinyCLR.Drivers.BME280/BME280Driver.cs:233-240 | For fine temperatures that map inside the range, the result is tFine / 5120 exactly. |
| Compensation.TemperatureSaturates | Source/Monoculture.TinyCLR.Drivers.BME280/BME280Driver.cs:235-238 | Fine temperatures below -204800 give -40, and above 435200 give 85. |
| Compensation.Pressure | Source/Monoculture.TinyCLR.Drivers.BME280/BME280Driver.cs:244-291 | The pressure lies in [30000, 110000]. A divisor of 0 or less gives 30000 without dividing; otherwise the result is the formula clamped. |
| Compensation.PressureDivisor | Source/Monoculture.TinyCLR.Drivers.BME280/BME280Driver.cs:253-265 | The divisor `var1` of the pressure formula over exact reals: the first `var1` from the fine temperature, then P3, P2 and P1 as lines 261-265 combine them. |
| Compensation.UnclampedPressure | Source/Monoculture.TinyCLR.Drivers.BME280/BME280Driver.cs:253-277 | The pressure formula of lines 269-277 over exact reals, defined only where the divisor is positive. |
| Compensation.UnclampedHumidity | Source/Monoculture.TinyCLR.Drivers.BME280/BME280Driver.cs:300-314 | The humidity formula of lines 300-314 over exact reals, before the clamp. |
| Compensation.Humidity | Source/Monoculture.TinyCLR.Drivers.BME280/BME280Driver.cs:293-323 | The humidity lies in [0, 100]. |
| Devices.Burst | Source/Monoculture.TinyCLR.Drivers.BME280/BME280Driver.cs:99 | An n-byte read from `start` returns registers start, start+1, … (mod 256), in that order. |
| Devices.I2cDevice.Write | Source/Monoculture.TinyCLR.Drivers.BME280/BME280Driver.cs:76 | The device logs the buffer as a transfer that reads nothing. |
| Devices.I2cDevice.WriteRead | Source/Monoculture.TinyCLR.Drivers.BME280/BME280BusWrapper.cs:62-68 | The device logs the write span and the read length. It fills exactly the read window with the registers addressed by the first byte written. |
| Devices.SpiDevice.TransferFullDuplex | Source/Monoculture.TinyCLR.Drivers.BME280/BME280BusWrapper.cs:80 | The device logs the frame and fills the read buffer with the device's same-length answer. |
| Devices.ArrayCopy | Source/Monoculture.TinyCLR.Drivers.BME280/BME280BusWrapper.cs:78 | The destination range takes the source range; every other destination byte is unchanged. |
| Transport.SpiFrame | Source/Monoculture.TinyCLR.Drivers.BME280/BME280BusWrapper.cs:72-78 | The outgoing frame has length writeLength + readLength. |
| Transport.SpiFrameLayout | Source/Monoculture.TinyCLR.Drivers.BME280/BME280BusWrapper.cs:74-78 | The frame is the write span followed by readLength zero bytes. |
| Transport.SpiReply | Source/Monoculture.TinyCLR.Drivers.BME280/BME280BusWrapper.cs:82 | The reply has length readLength. |
| Transport.SpiReplyPositions | Source/Monoculture.TinyCLR.Drivers.BME280/BME280BusWrapper.cs:82 | Reply byte i is received byte writeLength + i; the first writeLength received bytes are discarded. |
| Transport.SpiReplyIgnoresEcho | Source/Monoculture.TinyCLR.Drivers.BME280/BME280BusWrapper.cs:80-82 | What arrives while the write span goes out has no effect on the reply. |
| Transport.SpiWriteRead | Source/Monoculture.TinyCLR.Drivers.BME280/BME280BusWrapper.cs:72-83 | The SPI device receives one frame: the write span, then `readLength` zeros. The bytes received after the write span land in `readBuffer[readOffset..]`, and the rest of the read buffer is kept. A null read buffer fails after the transfer. |
| Transport.BusWrapper.FromSpi | Source/Monoculture.TinyCLR.Drivers.BME280/BME280BusWrapper.cs:26-29 | Only the SPI device is set. The bus is SPI for a device and I2C for null. |
| Transport.BusWrapper.FromI2c | Source/Monoculture.TinyCLR.Drivers.BME280/BME280BusWrapper.cs:31-34 | Only the I2C device is set, and the bus is I2C. |
| Transport.BusWrapper.BusType | Source/Monoculture.TinyCLR.Drivers.BME280/BME280BusWrapper.cs:40 | The bus is I2C exactly when no SPI device is set, and SPI exactly when one is. |
| Transport.BusWrapper.HasDevice | Source/Monoculture.TinyCLR.Drivers.BME280/BME280BusWrapper.cs:60-70 | Defines whether a call reaches a device: always on SPI, and on I2C only when an `I2cDevice` was given, since line 62 dereferences it. `Transport.BusWrapper.WriteRead`, `Write` and `WriteReadAll` fail with `NoDevice` exactly when it does not hold. |
| Transport.BusWrapper.Answer | Source/Monoculture.TinyCLR.Drivers.BME280/BME280BusWrapper.cs:60-83 | The bytes the caller gets back have length readLength. On I2C they are the device's reply to the write span; on SPI they are the bytes received after the write span of the frame. |
| Transport.BusWrapper.WriteRead | Source/Monoculture.TinyCLR.Drivers.BME280/BME280BusWrapper.cs:52-84 | The read window of `readBuffer` receives `Answer` of the write span. The write buffer and every read-buffer byte outside the window are unchanged. On I2C the device sees the write span and read length unchanged, and nothing else happens; without a device the call fails with a null dereference. On SPI one frame goes out: the write span plus zeros. A null read buffer fails after the transfer. |
| Transport.BusWrapper.Write | Source/Monoculture.TinyCLR.Drivers.BME280/BME280BusWrapper.cs:42-45 | The six-argument call with the whole buffer and a null read buffer. On I2C it is one logged write; on SPI the frame is sent and the call then fails on the null read buffer. |
| Transport.BusWrapper.WriteReadAll | Source/Monoculture.TinyCLR.Drivers.BME280/BME280BusWrapper.cs:47-50 | The full-span six-argument call: the whole read buffer becomes `Answer` of the whole write buffer. |
| Transport.BusesAgree | Source/Monoculture.TinyCLR.Drivers.BME280/BME280BusWrapper.cs:60-83 | Two wrappers return the same bytes for the same write span when the SPI device answers, after the write span, what the I2C device would. |
| Driver.CalibrationBlock | Source/Monoculture.TinyCLR.Drivers.BME280/BME280Driver.cs:97-101 | Offsets 0..25 hold the 26 registers from 0x88; offsets 26..32 hold the 7 registers from 0xE1. |
| Driver.ChipRecognized | Source/Monoculture.TinyCLR.Drivers.BME280/BME280Driver.cs:81-89 | Defines the chip test of line 87: register 0xD0 holds 0x60. `Driver.Bme280Driver.ChipId` fails exactly when it does not hold, and `Driver.InitializeUnknownChipWritesNothing` states what start-up does then. |
| Driver.CalibrationCrcMatches | Source/Monoculture.TinyCLR.Drivers.BME280/BME280Driver.cs:125-126 | Defines the comparison of line 125: the CRC byte from 0xE8 equals `Crc8` of the calibration block. `Driver.Bme280Driver.LoadCalibration` fails exactly when it does not hold. |
| Driver.InitializeLog | Source/Monoculture.TinyCLR.Drivers.BME280/BME280Driver.cs:61-101 | Defines the transfers of start-up: the chip-id read; then, only for a recognised chip, the reset and the three calibration reads; then, only on a CRC match, the three settings writes. `Driver.Bme280Driver.Initialize` is proved to issue exactly these, and `Driver.InitializeWriteOrder`, `InitializeUnknownChipWritesNothing`, `InitializeCrcMismatchWritesReset` and `InitializeReadsWriteNothing` state what they write. |
| Driver.Writing | Source/Monoculture.TinyCLR.Drivers.BME280/BME280Driver.cs:184-186 | A list of writes becomes, position by position, transfers that read nothing. |
| Driver.WritesAppend | Source/Monoculture.TinyCLR.Drivers.BME280/BME280Driver.cs:61-72 | The writes of a log can be collected part by part. |
| Driver.WritesOfWriting | Source/Monoculture.TinyCLR.Drivers.BME280/BME280Driver.cs:184-186 | Collecting the writes from logged plain writes gives the original list back. |
| Driver.WritesOfReads | Source/Monoculture.TinyCLR.Drivers.BME280/BME280Driver.cs:85-101 | A log made only of reads contains no write. |
| Driver.InitializeReadsWriteNothing | Source/Monoculture.TinyCLR.Drivers.BME280/BME280Driver.cs:85-101 | Neither the chip-id read nor the three calibration reads writes anything. |
| Driver.ResetWrites | Source/Monoculture.TinyCLR.Drivers.BME280/BME280Driver.cs:76 | The reset transfer writes exactly `{0xD0, 0xE0}`. |
| Driver.InitializeUnknownChipWritesNothing | Source/Monoculture.TinyCLR.Drivers.BME280/BME280Driver.cs:63-88 | If register 0xD0 does not read 0x60, start-up writes nothing at all, not even the reset. |
| Driver.InitializeWriteOrder | Source/Monoculture.TinyCLR.Drivers.BME280/BME280Driver.cs:61-72 | A successful start-up writes exactly these, in order: `{0xD0, 0xE0}`, then 0xF2, then 0xF5, then 0xF4. |
| Driver.InitializeCrcMismatchWritesReset | Source/Monoculture.TinyCLR.Drivers.BME280/BME280Driver.cs:63-67 | On a CRC mismatch the reset is the only write, and no settings are written. |
| Driver.NewBytes | Source/Monoculture.TinyCLR.Drivers.BME280/BME280Driver.cs:76 | A fresh array holding the given bytes. |
| Driver.Bme280Driver.constructor | Source/Monoculture.TinyCLR.Drivers.BME280/BME280Driver.cs:31-59 | The driver starts uninitialised, with no calibration and with the default settings. |
| Driver.Bme280Driver.WriteBytes | Source/Monoculture.TinyCLR.Drivers.BME280/BME280Driver.cs:76 | Logs one plain write of the given bytes. |
| Driver.Bme280Driver.ReadRegisters | Source/Monoculture.TinyCLR.Drivers.BME280/BME280Driver.cs:99 | Logs one read and fills the window with the burst from `start`; the rest of the buffer is kept. |
| Driver.Bme280Driver.ChipId | Source/Monoculture.TinyCLR.Drivers.BME280/BME280Driver.cs:81-89 | Reads one byte from 0xD0 and fails with `UnrecognizedChip` exactly when it is not 0x60. |
| Driver.Bme280Driver.Reset | Source/Monoculture.TinyCLR.Drivers.BME280/BME280Driver.cs:74-79 | One write of `{0xD0, 0xE0}`. |
| Driver.Bme280Driver.LoadCalibration | Source/Monoculture.TinyCLR.Drivers.BME280/BME280Driver.cs:91-127 | The reads are: 1 byte from 0xE8, then 26 from 0x88, then 7 from 0xE1. The coefficients decoded from the block are stored whatever the outcome. The method fails with `CalibrationCrcMismatch` exactly when the stored byte differs from `Crc8` of the block. |
| Driver.Bme280Driver.ReadCalibrationBlock | Source/Monoculture.TinyCLR.Drivers.BME280/BME280Driver.cs:97-101 | The 33-byte buffer holds `CalibrationBlock` of the device. |
| Driver.Bme280Driver.WriteSettings | Source/Monoculture.TinyCLR.Drivers.BME280/BME280Driver.cs:174-187 | Exactly three 2-byte writes, in this order: `{0xF2, osrH}`, then `{0xF5, config}`, then `{0xF4, meas}`. |
| Driver.Bme280Driver.Initialize | Source/Monoculture.TinyCLR.Drivers.BME280/BME280Driver.cs:61-72 | The log is the chip-id read, then the reset, the calibration reads and the settings writes, each step only if the previous one passed. The call succeeds exactly when the chip id is 0x60 and the CRC matches. The driver counts as initialised only after success. |
| Driver.Bme280Driver.ChangeSettings | Source/Monoculture.TinyCLR.Drivers.BME280/BME280Driver.cs:157-172 | Mode, the three oversamplings and standby take the arguments, and the filter keeps its old value. The registers are then rewritten from the new settings. |
| Driver.Bme280Driver.TakeForcedReading | Source/Monoculture.TinyCLR.Drivers.BME280/BME280Driver.cs:189-198 | One write of `{0xF4, meas}`. |
| Driver.Bme280Driver.Update | Source/Monoculture.TinyCLR.Drivers.BME280/BME280Driver.cs:200-224 | In forced mode the first transfer is the 0xF4 write; otherwise no write happens. Then 8 bytes are read from 0xF7, and the raw counts are their decoding. Without calibration the call fails after storing the counts and leaves the fine temperature as it was; this path assumes `BME280CFData` is a class (see "Left out"). |
| Driver.Bme280Driver.Temperature | Source/Monoculture.TinyCLR.Drivers.BME280/BME280Driver.cs:226-242 | The property lies in [-40, 85]. |
| Driver.Bme280Driver.Pressure | Source/Monoculture.TinyCLR.Drivers.BME280/BME280Driver.cs:244-291 | The property is present exactly when calibration data is, and lies in [30000, 110000]. |
| Driver.Bme280Driver.Humidity | Source/Monoculture.TinyCLR.Drivers.BME280/BME280Driver.cs:293-323 | The property is present exactly when calibration data is, and lies in [0, 100]. |

## Left out

- Floating point: the compensation formulas (`BME280Driver.cs:215-223` and `:226-322`) are evaluated over exact reals. The model keeps their guard and clamp structure but not `float`/`double` rounding.
- Driver.Bme280Driver.Update: the fine temperature that lines 215-223 compute in floating point is an input of the method (`fine`), not a result.
- Driver.Bme280Driver.Update: the failure without calibration (`NotCalibrated`) assumes that `BME280CFData`, whose declaration is not part of this model, is a class. Then `_calibration.T1` at `BME280Driver.cs:215` throws a null dereference while `_calibration` is unset. If the type were a struct, `Update` would instead compute the fine temperature from all-zero coefficients and succeed.
- Driver.Bme280Driver.Pressure: returning nothing before calibration rests on the same assumption (`_calibration.P6` at `BME280Driver.cs:255`). For a struct the getter would return 30000.
- Driver.Bme280Driver.Humidity: the same assumption (`_calibration.H4` at `BME280Driver.cs:302`). For a struct the getter would return 0.
- `Thread.Sleep` after the reset and after the forced-mode trigger: timing has no observable effect in the model.
- `GetI2CConnectionSettings`: it only builds a library settings object.
- The TinyCLR `I2cDevice`, `SpiDevice` and `Array.Copy`: these are stand-ins, not the library. The I2C register map is fixed, so writes do not change what later reads return.
- Enum codes: the sensor mode, oversampling, filter and standby enums are not among the files modelled. Their members are byte codes, and the initial settings and the code of `Forced` are constructor parameters.
- Driver.Bme280Driver.ChangeSettings: the C# default arguments of `BME280Driver.cs:158-163` (`Normal`, `X16` three times, `Off`, `Ms05`) are not modelled; callers pass every code. An argument a C# caller omits resets that setting to its default instead of keeping the current one: `MainX.cs:47-52` omits `standbyDuration`, which sets standby back to `Ms05`. The `filter` argument is never stored, so the filter keeps its value either way.
- Driver.Bme280Driver.constructor: takes a non-null device. The `ArgumentNullException` for a null device is not modelled.
- Transport.BusWrapper.WriteRead: offsets and lengths are natural numbers, and the spans must fit their buffers. The write buffer is never null. The exceptions `Array.Copy` and the devices throw on negative or overlong arguments or on a null write buffer are not modelled. Two exceptions the source does hit with valid arguments are modelled: the null read buffer on SPI, which fails after the transfer (`NullReadBuffer`), and the null dereference of `I2CDevice` at `BME280BusWrapper.cs:62` on a wrapper built from a null `I2cDevice` (`NoDevice`).
- Transport.BusWrapper.Write: the write buffer is never null. The source throws a null dereference on `writeBuffer.Length` (`BME280BusWrapper.cs:44`) for a null one, and the model does not cover that case.
- Transport.BusWrapper.WriteReadAll: both buffers are never null. The source throws a null dereference on `writeBuffer.Length` or `readBuffer.Length` (`BME280BusWrapper.cs:49`) for a null one, and the model does not cover that case.
- The demo programs (`MainX.cs`, `I2CDemo.cs`, `SpiDemo.cs`) are host loops with console output.
