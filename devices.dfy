/**
 * Stand-ins for the bus devices of the TinyCLR library, which the driver and
 * the bus wrapper call but which are not part of this model: an I2C device
 * answering from a fixed register map and keeping a log of its transfers,
 * and an SPI device whose full-duplex answer is a fixed same-length function
 * of what it is sent.
 */
module Devices {
  import opened Bits

  /** One bus transaction: the bytes written, then the number of bytes read back. */
  datatype Transfer = Transfer(written: seq<Byte>, readLength: nat)

  /** The content of register `address`; registers the map does not name read as 0. */
  function Register(registers: map<Byte, Byte>, address: Byte): Byte
  {
    if address in registers then registers[address] else 0
  }

  /** `n` bytes read from consecutive registers from `start` on, the address wrapping at 0xFF. */
  function Burst(registers: map<Byte, Byte>, start: Byte, n: nat): (r: seq<Byte>)
    ensures |r| == n
    ensures forall i :: 0 <= i < n ==> r[i] == Register(registers, (start + i) % 0x100)
  {
    if n == 0 then [] else Burst(registers, start, n - 1) + [Register(registers, (start + n - 1) % 0x100)]
  }

  /** The answer to a write-then-read: the first byte written selects the register to read from. */
  function Reply(registers: map<Byte, Byte>, written: seq<Byte>, n: nat): (r: seq<Byte>)
    ensures |r| == n
  {
    Burst(registers, if |written| > 0 then written[0] else 0, n)
  }

  /** An I2C device (`I2cDevice`) over a fixed register map. */
  class I2cDevice {
    const registers: map<Byte, Byte>
    var log: seq<Transfer>

    constructor (registers: map<Byte, Byte>)
      ensures this.registers == registers && log == []
    {
      this.registers := registers;
      log := [];
    }

    /** `I2cDevice.Write(buffer)`: a transfer that reads nothing. */
    method Write(buffer: array<Byte>)
      modifies this
      ensures log == old(log) + [Transfer(buffer[..], 0)]
    {
      log := log + [Transfer(buffer[..], 0)];
    }

    /**
     * `I2cDevice.WriteRead`: writes `writeBuffer[writeOffset..writeOffset+writeLength]`,
     * then reads `readLength` bytes into `readBuffer` from `readOffset` on.
     * A null read buffer is accepted when nothing is read.
     */
    method WriteRead(writeBuffer: array<Byte>, writeOffset: nat, writeLength: nat,
                     readBuffer: array?<Byte>, readOffset: nat, readLength: nat)
      requires writeOffset + writeLength <= writeBuffer.Length
      requires readBuffer == null ==> readLength == 0
      requires readBuffer != null ==> readOffset + readLength <= readBuffer.Length
      modifies this, readBuffer
      ensures log == old(log) + [Transfer(old(writeBuffer[writeOffset..writeOffset + writeLength]), readLength)]
      ensures readBuffer != null ==>
                readBuffer[..] == old(readBuffer[..readOffset])
                                  + Reply(registers, old(writeBuffer[writeOffset..writeOffset + writeLength]), readLength)
                                  + old(readBuffer[readOffset + readLength..])
    {
      var written := writeBuffer[writeOffset..writeOffset + writeLength];
      if readBuffer != null {
        Fill(readBuffer, readOffset, Reply(registers, written, readLength));
      }
      log := log + [Transfer(written, readLength)];
    }
  }

  /** What a full-duplex SPI device sends back for a frame: a frame of the same length. */
  type Exchange = f: seq<Byte> -> seq<Byte> | forall w :: |f(w)| == |w|
    witness (w: seq<Byte>) => w

  /** An SPI device (`SpiDevice`) answering by a fixed exchange function. */
  class SpiDevice {
    const exchange: Exchange
    var log: seq<seq<Byte>>

    constructor (exchange: Exchange)
      ensures this.exchange == exchange && log == []
    {
      this.exchange := exchange;
      log := [];
    }

    /** `SpiDevice.TransferFullDuplex`: sends `writeBuffer` while filling `readBuffer`. */
    method TransferFullDuplex(writeBuffer: array<Byte>, readBuffer: array<Byte>)
      requires writeBuffer.Length == readBuffer.Length
      modifies this, readBuffer
      ensures log == old(log) + [old(writeBuffer[..])]
      ensures readBuffer[..] == exchange(old(writeBuffer[..]))
    {
      var sent := writeBuffer[..];
      var received := exchange(sent);
      forall i | 0 <= i < readBuffer.Length {
        readBuffer[i] := received[i];
      }
      log := log + [sent];
    }
  }

  /**
   * `Array.Copy(source, sourceIndex, destination, destinationIndex, length)`:
   * the destination range takes the source range, as if through a temporary
   * copy when the two arrays are the same.
   */
  method ArrayCopy(source: array<Byte>, sourceIndex: nat, destination: array<Byte>, destinationIndex: nat, length: nat)
    requires sourceIndex + length <= source.Length
    requires destinationIndex + length <= destination.Length
    modifies destination
    ensures destination[..] == old(destination[..destinationIndex])
                               + old(source[sourceIndex..sourceIndex + length])
                               + old(destination[destinationIndex + length..])
  {
    Fill(destination, destinationIndex, source[sourceIndex..sourceIndex + length]);
  }

  /** Overwrites `buffer` from `offset` on with `data`; the rest of the buffer is kept. */
  method Fill(buffer: array<Byte>, offset: nat, data: seq<Byte>)
    requires offset + |data| <= buffer.Length
    modifies buffer
    ensures buffer[..] == old(buffer[..offset]) + data + old(buffer[offset + |data|..])
  {
    forall i | offset <= i < offset + |data| {
      buffer[i] := data[i - offset];
    }
    assert buffer[..] == old(buffer[..offset]) + data + old(buffer[offset + |data|..]);
  }
}
