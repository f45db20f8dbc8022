/**
 * The bus-transport adapter (`BME280BusWrapper`): one write-then-read
 * interface over an I2C device, where the call is passed straight through,
 * or an SPI device, where the write span and the read span share one
 * full-duplex frame.
 */
module Transport {
  import opened Bits
  import opened Wrappers
  import opened Devices

  datatype BusType = I2C | Spi

  /** The exceptions the adapter can raise on arguments its callers do pass. */
  datatype BusError =
    | NoDevice        // the I2C branch dereferences a device that was never set
    | NullReadBuffer  // the SPI branch copies the reply into a null read buffer

  /** `n` zero bytes: the tail of a freshly allocated frame that nothing was copied over. */
  function Zeros(n: nat): (r: seq<Byte>)
    ensures |r| == n && forall i :: 0 <= i < n ==> r[i] == 0
  {
    if n == 0 then [] else Zeros(n - 1) + [0]
  }

  /** The outgoing SPI frame: the write span, then one zero byte per byte to be read. */
  function SpiFrame(written: seq<Byte>, readLength: nat): (r: seq<Byte>)
    ensures |r| == |written| + readLength
  {
    written + Zeros(readLength)
  }

  /** The part of a received SPI frame handed back to the caller: what came in after the write span. */
  function SpiReply(received: seq<Byte>, writeLength: nat, readLength: nat): (r: seq<Byte>)
    requires writeLength + readLength <= |received|
    ensures |r| == readLength
  {
    received[writeLength..writeLength + readLength]
  }

  /** The outgoing frame carries the write span first and zeros after it. */
  lemma SpiFrameLayout(written: seq<Byte>, readLength: nat)
    ensures SpiFrame(written, readLength)[..|written|] == written
    ensures forall i :: |written| <= i < |written| + readLength ==> SpiFrame(written, readLength)[i] == 0
  {
  }

  /**
   * The reply is received byte `writeLength + i` at position `i`: whatever
   * arrived while the write span was going out is discarded.
   */
  lemma SpiReplyPositions(received: seq<Byte>, writeLength: nat, readLength: nat)
    requires writeLength + readLength <= |received|
    ensures forall i :: 0 <= i < readLength ==> SpiReply(received, writeLength, readLength)[i] == received[writeLength + i]
  {
  }

  /** The reply depends only on the bytes received after the write span. */
  lemma SpiReplyIgnoresEcho(received: seq<Byte>, other: seq<Byte>, writeLength: nat, readLength: nat)
    requires writeLength + readLength <= |received| == |other|
    requires received[writeLength..] == other[writeLength..]
    ensures SpiReply(received, writeLength, readLength) == SpiReply(other, writeLength, readLength)
  {
    assert received[writeLength..][..readLength] == other[writeLength..][..readLength];
  }

  /**
   * The SPI branch of `WriteRead`: two scratch buffers of `writeLength +
   * readLength` bytes, the write span copied to the front of the outgoing
   * one, one full-duplex transfer, and the bytes after the write span copied
   * out to `readBuffer`.
   */
  method SpiWriteRead(device: SpiDevice, writeBuffer: array<Byte>, writeOffset: nat, writeLength: nat,
                      readBuffer: array?<Byte>, readOffset: nat, readLength: nat)
    returns (outcome: Outcome<BusError>)
    requires writeOffset + writeLength <= writeBuffer.Length
    requires readBuffer != null ==> readOffset + readLength <= readBuffer.Length
    modifies device, readBuffer
    ensures writeBuffer != readBuffer ==> unchanged(writeBuffer)
    ensures device.log == old(device.log) + [SpiFrame(old(writeBuffer[writeOffset..writeOffset + writeLength]), readLength)]
    ensures readBuffer == null ==> outcome == Fail(NullReadBuffer)
    ensures readBuffer != null ==>
              && outcome == Pass
              && readBuffer[..] == old(readBuffer[..readOffset])
                                   + SpiReply(device.exchange(SpiFrame(old(writeBuffer[writeOffset..writeOffset + writeLength]), readLength)),
                                              writeLength, readLength)
                                   + old(readBuffer[readOffset + readLength..])
  {
    ghost var written := writeBuffer[writeOffset..writeOffset + writeLength];
    var bufferSize := writeLength + readLength;
    var scratchRead := new Byte[bufferSize];
    var scratchWrite := new Byte[bufferSize](_ => 0);
    ArrayCopy(writeBuffer, writeOffset, scratchWrite, 0, writeLength);
    assert scratchWrite[..] == SpiFrame(written, readLength);
    device.TransferFullDuplex(scratchWrite, scratchRead);
    if readBuffer == null {
      return Fail(NullReadBuffer);
    }
    ArrayCopy(scratchRead, writeLength, readBuffer, readOffset, readLength);
    return Pass;
  }

  class BusWrapper {
    const i2cDevice: I2cDevice?
    const spiDevice: SpiDevice?

    /** `BME280BusWrapper(SpiDevice)`. */
    constructor FromSpi(device: SpiDevice?)
      ensures spiDevice == device && i2cDevice == null
      ensures BusType() == (if device == null then I2C else Spi)
    {
      spiDevice := device;
      i2cDevice := null;
    }

    /** `BME280BusWrapper(I2cDevice)`: the bus is I2C whatever the device. */
    constructor FromI2c(device: I2cDevice?)
      ensures i2cDevice == device && spiDevice == null
      ensures BusType() == I2C
    {
      i2cDevice := device;
      spiDevice := null;
    }

    /** I2C exactly when no SPI device is set. */
    function BusType(): (r: BusType)
      ensures r == I2C <==> spiDevice == null
      ensures r == Spi <==> spiDevice != null
    {
      if spiDevice == null then I2C else Spi
    }

    /** A call reaches a device: on I2C one must have been given. */
    predicate HasDevice()
    {
      BusType() == Spi || i2cDevice != null
    }

    /**
     * The `readLength` bytes the bus hands back after `written` went out:
     * on I2C the registers the device answers with, on SPI the bytes that
     * came in after the write span of the frame.
     */
    function Answer(written: seq<Byte>, readLength: nat): (r: seq<Byte>)
      requires HasDevice()
      ensures |r| == readLength
    {
      if BusType() == I2C then Reply(i2cDevice.registers, written, readLength)
      else SpiReply(spiDevice.exchange(SpiFrame(written, readLength)), |written|, readLength)
    }

    /**
     * The six-argument `WriteRead`. On I2C the arguments go to the device
     * unchanged. On SPI a frame of `writeLength + readLength` bytes is sent
     * and the bytes received after the write span are copied to `readBuffer`
     * from `readOffset` on; a null read buffer makes that copy throw after the
     * transfer has happened.
     */
    method WriteRead(writeBuffer: array<Byte>, writeOffset: nat, writeLength: nat,
                     readBuffer: array?<Byte>, readOffset: nat, readLength: nat)
      returns (outcome: Outcome<BusError>)
      requires writeOffset + writeLength <= writeBuffer.Length
      requires readBuffer == null ==> readLength == 0
      requires readBuffer != null ==> readOffset + readLength <= readBuffer.Length
      modifies i2cDevice, spiDevice, readBuffer
      ensures writeBuffer != readBuffer ==> unchanged(writeBuffer)
      ensures outcome == if !HasDevice() then Fail(NoDevice)
                         else if BusType() == Spi && readBuffer == null then Fail(NullReadBuffer)
                         else Pass
      ensures !HasDevice() && readBuffer != null ==> unchanged(readBuffer)
      ensures HasDevice() && readBuffer != null ==>
                readBuffer[..] == old(readBuffer[..readOffset])
                                  + Answer(old(writeBuffer[writeOffset..writeOffset + writeLength]), readLength)
                                  + old(readBuffer[readOffset + readLength..])
      // what the device sees: the write span and the read length unchanged on I2C, one frame on SPI
      ensures BusType() == I2C && i2cDevice != null ==>
                i2cDevice.log == old(i2cDevice.log)
                                 + [Transfer(old(writeBuffer[writeOffset..writeOffset + writeLength]), readLength)]
      ensures BusType() == Spi ==>
                && spiDevice.log == old(spiDevice.log)
                                    + [SpiFrame(old(writeBuffer[writeOffset..writeOffset + writeLength]), readLength)]
                && (i2cDevice != null ==> unchanged(i2cDevice))
    {
      if BusType() == I2C {
        if i2cDevice == null {
          return Fail(NoDevice);
        }
        i2cDevice.WriteRead(writeBuffer, writeOffset, writeLength, readBuffer, readOffset, readLength);
        return Pass;
      }
      outcome := SpiWriteRead(spiDevice, writeBuffer, writeOffset, writeLength, readBuffer, readOffset, readLength);
    }

    /** `Write(writeBuffer)`: the six-argument call with the whole buffer written and a null read buffer. */
    method Write(writeBuffer: array<Byte>) returns (outcome: Outcome<BusError>)
      modifies i2cDevice, spiDevice
      ensures unchanged(writeBuffer)
      ensures outcome == if !HasDevice() then Fail(NoDevice)
                         else if BusType() == Spi then Fail(NullReadBuffer)
                         else Pass
      ensures BusType() == I2C && i2cDevice != null ==>
                i2cDevice.log == old(i2cDevice.log) + [Transfer(old(writeBuffer[..]), 0)]
      ensures BusType() == Spi ==>
                && spiDevice.log == old(spiDevice.log) + [SpiFrame(old(writeBuffer[..]), 0)]
                && (i2cDevice != null ==> unchanged(i2cDevice))
    {
      assert writeBuffer[0..writeBuffer.Length] == writeBuffer[..];
      outcome := WriteRead(writeBuffer, 0, writeBuffer.Length, null, 0, 0);
    }

    /** The two-argument `WriteRead`: the whole write buffer out, the whole read buffer in. */
    method WriteReadAll(writeBuffer: array<Byte>, readBuffer: array<Byte>) returns (outcome: Outcome<BusError>)
      modifies i2cDevice, spiDevice, readBuffer
      ensures writeBuffer != readBuffer ==> unchanged(writeBuffer)
      ensures outcome == if HasDevice() then Pass else Fail(NoDevice)
      ensures !HasDevice() ==> unchanged(readBuffer)
      ensures HasDevice() ==> readBuffer[..] == Answer(old(writeBuffer[..]), readBuffer.Length)
      ensures BusType() == I2C && i2cDevice != null ==>
                i2cDevice.log == old(i2cDevice.log) + [Transfer(old(writeBuffer[..]), readBuffer.Length)]
      ensures BusType() == Spi ==>
                && spiDevice.log == old(spiDevice.log) + [SpiFrame(old(writeBuffer[..]), readBuffer.Length)]
                && (i2cDevice != null ==> unchanged(i2cDevice))
    {
      assert writeBuffer[0..writeBuffer.Length] == writeBuffer[..];
      assert readBuffer[..0] == [] && readBuffer[readBuffer.Length..] == [];
      outcome := WriteRead(writeBuffer, 0, writeBuffer.Length, readBuffer, 0, readBuffer.Length);
      if HasDevice() {
        assert readBuffer[..] == [] + Answer(old(writeBuffer[..]), readBuffer.Length) + [];
      }
    }
  }

  /**
   * The two buses are interchangeable: when the SPI device sends back, after
   * the write span, what the I2C device would answer, both wrappers hand the
   * caller the same bytes.
   */
  lemma BusesAgree(i2c: BusWrapper, spi: BusWrapper, written: seq<Byte>, readLength: nat)
    requires i2c.BusType() == I2C && i2c.i2cDevice != null && spi.BusType() == Spi
    requires spi.spiDevice.exchange(SpiFrame(written, readLength))[|written|..]
             == Reply(i2c.i2cDevice.registers, written, readLength)
    ensures i2c.Answer(written, readLength) == spi.Answer(written, readLength)
  {
    var received := spi.spiDevice.exchange(SpiFrame(written, readLength));
    assert received[|written|..|written| + readLength] == received[|written|..];
  }
}
