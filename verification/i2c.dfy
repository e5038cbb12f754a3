/** A stand-in for System.Device.I2c.I2cDevice. The driver only ever writes
    byte frames and reads single bytes, so the transport keeps the frames
    written, in order, and answers reads from a script of reply bytes. When the
    script is used up a read fails, as a real device that stops acknowledging
    makes Read throw. */
module I2c {
  import opened Errors

  /** One transaction the host puts on the I2C bus: a plain write, or a write
      followed by a one-byte read in the same transaction. */
  datatype Frame = Write(data: seq<bv8>) | WriteRead(data: seq<bv8>)

  class I2cDevice {
    /** The connection settings the device was opened with. */
    const busId: int
    const address: int
    /** Every frame written so far, oldest first. */
    var log: seq<Frame>
    /** The reply bytes the device has not yet delivered. */
    var replies: seq<bv8>
    var disposed: bool

    constructor (busId: int, address: int, replies: seq<bv8>)
      ensures this.busId == busId && this.address == address
      ensures log == [] && this.replies == replies && !disposed
    {
      this.busId := busId;
      this.address := address;
      log := [];
      this.replies := replies;
      disposed := false;
    }

    method Write(data: seq<bv8>)
      modifies this
      ensures log == old(log) + [Frame.Write(data)]
      ensures replies == old(replies) && disposed == old(disposed)
    {
      log := log + [Frame.Write(data)];
    }

    /** Reads one byte into a one-byte buffer. */
    method Read() returns (r: Result<bv8>)
      modifies this
      ensures old(replies) == [] ==> r == Err(I2cIoError) && replies == []
      ensures old(replies) != [] ==> r == Ok(old(replies)[0]) && replies == old(replies)[1..]
      ensures log == old(log) && disposed == old(disposed)
    {
      if replies == [] {
        return Err(I2cIoError);
      }
      r := Ok(replies[0]);
      replies := replies[1..];
    }

    /** Writes a frame, then reads one byte back in the same transaction. */
    method WriteRead(data: seq<bv8>) returns (r: Result<bv8>)
      modifies this
      ensures log == old(log) + [Frame.WriteRead(data)]
      ensures old(replies) == [] ==> r == Err(I2cIoError) && replies == []
      ensures old(replies) != [] ==> r == Ok(old(replies)[0]) && replies == old(replies)[1..]
      ensures disposed == old(disposed)
    {
      log := log + [Frame.WriteRead(data)];
      if replies == [] {
        return Err(I2cIoError);
      }
      r := Ok(replies[0]);
      replies := replies[1..];
    }

    method Dispose()
      modifies this
      ensures disposed
      ensures log == old(log) && replies == old(replies)
    {
      disposed := true;
    }
  }
}
