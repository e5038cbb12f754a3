/** The DS18S20/DS18B20 sensor protocol of DS18X20Base (DS1820Base.cs): address
    the sensor with a reset and MATCH ROM, start a conversion under the strong
    pull-up, address it again and read the nine scratchpad bytes, which are
    accepted only when they are neither of the two known bad patterns and
    their CRC-8 checks. */
module Sensors {
  import opened Errors
  import opened Crc8
  import opened I2c
  import opened Ds2482Protocol
  import opened Bus
  import opened Temperature

  /** The ROM and function commands the sensors are sent. */
  const MATCH_ROM: bv8 := 0x55
  const CONVERT_T: bv8 := 0x44
  const READ_SCRATCHPAD: bv8 := 0xBE

  /** The scratchpad read when nothing drives the bus: every bit 1. */
  const AllOnes: seq<bv8> := [0xFF, 0xFF, 0xFF, 0xFF, 0xFF, 0xFF, 0xFF, 0xFF, 0xFF]
  /** The scratchpad of a sensor that has not converted since power-on. */
  const PowerOnScratchpad: seq<bv8> := [0x50, 0x05, 0x4B, 0x46, 0x7F, 0xFF, 0x0C, 0x10, 0x1C]

  /** The validity test of ReadScratchpad: neither bad pattern, and byte 8 is
      the CRC of bytes 0 to 7 (equivalently, the CRC of all nine is 0). The
      all-ones pattern already fails the CRC, so validity is the CRC test
      minus the power-on pattern. */
  predicate ValidScratchpad(s: seq<bv8>)
    ensures ValidScratchpad(s) <==> s != PowerOnScratchpad && Crc(s) == 0
  {
    AllOnesFailsCrc();
    s != AllOnes && s != PowerOnScratchpad && Crc(s) == 0
  }

  /** The frame of a write-byte command. */
  function ByteFrame(b: bv8): Frame
  {
    Frame.Write([ONEWIRE_WRITE_BYTE, b])
  }

  /** The frames of writing the bytes of data one after the other. */
  function WriteFrames(data: seq<bv8>): seq<Frame>
  {
    if |data| == 0 then [] else WriteFrames(data[..|data| - 1]) + [ByteFrame(data[|data| - 1])]
  }

  /** The frames of n read-byte commands. */
  function ReadFrames(n: nat): seq<Frame>
  {
    if n == 0 then []
    else ReadFrames(n - 1) + [Frame.Write([ONEWIRE_READ_BYTE]), Frame.WriteRead([SET_READ_POINTER, READ_DATA_REGISTER])]
  }

  /** n write-byte commands against reply stream s, each waiting for the bus:
      the replies left over, or None when a wait runs out of replies. */
  function WritePolls(s: seq<bv8>, n: nat): Option<seq<bv8>>
  {
    if n == 0 then Some(s)
    else if !Polled(s) then None
    else WritePolls(AfterPoll(s), n - 1)
  }

  /** n read-byte commands against reply stream s: the bytes delivered and
      the replies left over, or None when a read fails. */
  function ReadBytes(s: seq<bv8>, n: nat): Option<(seq<bv8>, seq<bv8>)>
  {
    if n == 0 then Some(([], s))
    else match ReadBytes(s, n - 1)
      case None => None
      case Some((bytes, rest)) =>
        if !Polled(rest) || AfterPoll(rest) == [] then None
        else Some((bytes + [AfterPoll(rest)[0]], AfterPoll(rest)[1..]))
  }

  /** The frames of ResetOneWireAndMatchDeviceRomAddress. */
  function MatchFrames(selected: bool, ch: OneWireChannel, address: seq<bv8>): seq<Frame>
  {
    ResetFrames(selected, ch) + ([ByteFrame(MATCH_ROM)] + WriteFrames(address))
  }

  /** The replies ResetOneWireAndMatchDeviceRomAddress consumes: the reset,
      whatever presence it reports, then one wait per byte written. */
  function MatchReplies(selected: bool, ch: OneWireChannel, address: seq<bv8>, s: seq<bv8>): Result<seq<bv8>>
  {
    var reset := ResetReplies(selected, ch, s);
    if reset.0.Err? then Err(reset.0.error)
    else match WritePolls(reset.1, 1 + |address|)
      case None => Err(I2cIoError)
      case Some(left) => Ok(left)
  }

  /** The replies GetTemperatureScratchpadAsync consumes from reply stream s
      when the buffer has nine bytes: the first addressing, the wait after
      CONVERT T, the second addressing (the channel now selected), the wait
      after READ SCRATCHPAD, then nine byte reads. The bytes read and the
      replies left over, or the error of the first step that fails. */
  function ScratchpadReplies(selected: bool, ch: OneWireChannel, address: seq<bv8>, s: seq<bv8>)
    : Result<(seq<bv8>, seq<bv8>)>
  {
    match MatchReplies(selected, ch, address, s)
    case Err(e) => Err(e)
    case Ok(s1) =>
      match WritePolls(s1, 1)
      case None => Err(I2cIoError)
      case Some(s2) =>
        match MatchReplies(true, ch, address, s2)
        case Err(e) => Err(e)
        case Ok(s3) =>
          if !Polled(s3) then Err(I2cIoError)
          else match ReadBytes(AfterPoll(s3), 9)
            case None => Err(I2cIoError)
            case Some(read) => Ok(read)
  }

  /** CheckCrc: folds bytes 0 to |data| - 2 through the table and compares the
      result with the last byte; that is the CRC of all the bytes being 0. */
  method CheckCrc(data: seq<bv8>) returns (ok: bool)
    requires |data| >= 1
    ensures ok <==> Crc(data[..|data| - 1]) == data[|data| - 1]
    ensures ok <==> Crc(data) == 0
  {
    var crc8: bv8 := 0;
    var n := |data| - 1;
    var i := 0;
    while i < n
      invariant 0 <= i <= n
      invariant crc8 == Crc(data[..i])
    {
      TableIsBitwise(crc8, data[i]);
      CrcPrefix(data, i);
      crc8 := TableStep(crc8, data[i]);
      i := i + 1;
    }
    assert data[..n] + [data[n]] == data;
    CrcAppendZero(data[..n], data[n]);
    ok := crc8 == data[n];
  }

  /** A trace of the running CRC: when each entry of c is the step of the
      one before over the next byte of data, c[k] is the CRC of the first k
      bytes. */
  lemma {:induction false} CrcTrace(data: seq<bv8>, c: seq<bv8>, k: nat)
    requires |c| == |data| + 1 && c[0] == 0 && k <= |data|
    requires forall j :: 0 <= j < |data| ==> c[j + 1] == BitwiseStep(c[j], data[j])
    ensures Crc(data[..k]) == c[k]
  {
    if k == 0 {
      assert data[..0] == [];
    } else {
      CrcTrace(data, c, k - 1);
      CrcPrefix(data, k - 1);
      StepUnrolled(c[k - 1], data[k - 1]);
    }
  }

  /** Nine 0xFF bytes fail the CRC, so the all-ones test adds nothing to it. */
  lemma AllOnesFailsCrc()
    ensures Crc(AllOnes) == 99
  {
    CrcTrace(AllOnes, [0, 53, 180, 102, 141, 68, 18, 20, 201, 99], 9);
    assert AllOnes[..9] == AllOnes;
  }

  /** The power-on scratchpad carries a correct CRC, so only its own test
      rejects it. */
  lemma PowerOnScratchpadPassesCrc()
    ensures Crc(PowerOnScratchpad) == 0
  {
    CrcTrace(PowerOnScratchpad, [0, 219, 72, 226, 206, 108, 243, 53, 28, 0], 9);
    assert PowerOnScratchpad[..9] == PowerOnScratchpad;
  }

  /** ReadScratchpad: refuses a buffer that is not nine bytes long, sends
      READ SCRATCHPAD, fills the buffer with nine bytes read in order and
      reports whether they are valid. */
  method ReadScratchpad(channel: Ds2482Channel, scratchpad: array<bv8>) returns (r: Result<bool>)
    modifies scratchpad, channel.owner.device
    ensures scratchpad.Length != 9 ==> r == Err(ArgumentError) && unchanged(channel.owner.device)
    ensures scratchpad.Length == 9 && !Polled(old(channel.owner.device.replies)) ==>
      r == Err(I2cIoError) && channel.owner.device.replies == [] &&
      channel.owner.device.log == old(channel.owner.device.log) + [ByteFrame(READ_SCRATCHPAD)]
    ensures scratchpad.Length == 9 && Polled(old(channel.owner.device.replies)) ==>
      var read := ReadBytes(AfterPoll(old(channel.owner.device.replies)), 9);
      (read.None? ==> r == Err(I2cIoError)) &&
      (read.Some? ==>
        r == Ok(ValidScratchpad(read.value.0)) && scratchpad[..] == read.value.0 &&
        channel.owner.device.replies == read.value.1 &&
        channel.owner.device.log == old(channel.owner.device.log) + [ByteFrame(READ_SCRATCHPAD)] + ReadFrames(9))
    ensures channel.owner.device.disposed == old(channel.owner.device.disposed)
  {
    if scratchpad.Length != 9 {
      return Err(ArgumentError);
    }
    var written := channel.OneWireWriteByte(READ_SCRATCHPAD);
    if written.Fail? {
      return Err(written.error);
    }
    var read := ReadBytesInto(channel, scratchpad);
    if read.Fail? {
      return Err(read.error);
    }
    var valid := scratchpad[..] != AllOnes && scratchpad[..] != PowerOnScratchpad;
    if valid {
      valid := CheckCrc(scratchpad[..]);
    }
    return Ok(valid);
  }

  /** The for loop of ReadScratchpad: fills the buffer with bytes read in
      order. */
  method ReadBytesInto(channel: Ds2482Channel, scratchpad: array<bv8>) returns (r: Outcome)
    modifies scratchpad, channel.owner.device
    ensures var read := ReadBytes(old(channel.owner.device.replies), scratchpad.Length);
      (read.None? ==> r == Fail(I2cIoError)) &&
      (read.Some? ==>
        r == Pass && scratchpad[..] == read.value.0 && channel.owner.device.replies == read.value.1 &&
        channel.owner.device.log == old(channel.owner.device.log) + ReadFrames(scratchpad.Length))
    ensures channel.owner.device.disposed == old(channel.owner.device.disposed)
  {
    var device := channel.owner.device;
    ghost var s0 := device.replies;
    assert scratchpad[..0] == [];
    var i := 0;
    while i < scratchpad.Length
      invariant 0 <= i <= scratchpad.Length
      invariant ReadBytes(s0, i) == Some((scratchpad[..i], device.replies))
      invariant device.log == old(device.log) + ReadFrames(i)
      invariant device.disposed == old(device.disposed)
    {
      r := ReadByteInto(channel, scratchpad, i, s0);
      if r.Fail? {
        ReadFailureStays(s0, i + 1, scratchpad.Length);
        return;
      }
      i := i + 1;
    }
    assert scratchpad[..i] == scratchpad[..];
    return Pass;
  }

  /** One turn of that loop: byte i of the buffer is the next byte read. */
  method ReadByteInto(channel: Ds2482Channel, scratchpad: array<bv8>, i: nat, ghost s0: seq<bv8>) returns (r: Outcome)
    requires i < scratchpad.Length && ReadBytes(s0, i) == Some((scratchpad[..i], channel.owner.device.replies))
    modifies scratchpad, channel.owner.device
    ensures r.Fail? ==> r == Fail(I2cIoError) && ReadBytes(s0, i + 1) == None
    ensures r.Pass? ==>
      ReadBytes(s0, i + 1) == Some((scratchpad[..i + 1], channel.owner.device.replies)) &&
      channel.owner.device.log == old(channel.owner.device.log) + ReadFrames(1)
    ensures channel.owner.device.disposed == old(channel.owner.device.disposed)
  {
    ghost var before := scratchpad[..i];
    var b := channel.OneWireReadByte();
    if b.Err? {
      return Fail(b.error);
    }
    scratchpad[i] := b.value;
    assert scratchpad[..i + 1] == before + [b.value];
    r := Pass;
  }

  /** Once a read has failed, every longer run of reads fails. */
  lemma {:induction false} ReadFailureStays(s: seq<bv8>, k: nat, n: nat)
    requires k <= n && ReadBytes(s, k) == None
    ensures ReadBytes(s, n) == None
    decreases n - k
  {
    if k < n {
      ReadFailureStays(s, k + 1, n);
    }
  }

  /** The foreach over the ROM address: each byte written, in order. */
  method WriteAddress(channel: Ds2482Channel, address: seq<bv8>) returns (r: Outcome)
    modifies channel.owner.device
    ensures r.Pass? <==> WritePolls(old(channel.owner.device.replies), |address|).Some?
    ensures r.Pass? ==>
      channel.owner.device.replies == WritePolls(old(channel.owner.device.replies), |address|).value &&
      channel.owner.device.log == old(channel.owner.device.log) + WriteFrames(address)
    ensures r.Fail? ==> r == Fail(I2cIoError)
    ensures channel.owner.device.disposed == old(channel.owner.device.disposed)
  {
    var device := channel.owner.device;
    ghost var s0 := device.replies;
    var i := 0;
    while i < |address|
      invariant 0 <= i <= |address|
      invariant WritePolls(s0, |address|) == WritePolls(device.replies, |address| - i)
      invariant device.log == old(device.log) + WriteFrames(address[..i])
      invariant device.disposed == old(device.disposed)
    {
      var written := channel.OneWireWriteByte(address[i]);
      if written.Fail? {
        return written;
      }
      assert address[..i + 1][..i] == address[..i];
      i := i + 1;
    }
    assert address[..i] == address;
    return Pass;
  }

  /** ResetOneWireAndMatchDeviceRomAddress: a bus reset whose presence
      result is not consulted, MATCH ROM, then the eight address bytes. */
  method ResetOneWireAndMatchDeviceRomAddress(channel: Ds2482Channel, address: seq<bv8>) returns (r: Outcome)
    modifies channel.owner.device, channel.owner`selected
    ensures var m := MatchReplies(old(channel.owner.IsCorrectChannelSelected(channel.channel)), channel.channel,
        address, old(channel.owner.device.replies));
      (r.Pass? <==> m.Ok?) && (r.Fail? ==> r.error == m.error) &&
      (r.Pass? ==> channel.owner.device.replies == m.value)
    ensures r.Pass? ==>
      channel.owner.IsCorrectChannelSelected(channel.channel) &&
      channel.owner.device.log == old(channel.owner.device.log) +
        MatchFrames(old(channel.owner.IsCorrectChannelSelected(channel.channel)), channel.channel, address)
    ensures channel.owner.device.disposed == old(channel.owner.device.disposed)
  {
    ghost var selected := channel.owner.IsCorrectChannelSelected(channel.channel);
    var reset := channel.OneWireReset();
    if reset.Ok? {
      r := MatchRom(channel, address);
      if r.Pass? {
        AppendAssoc(old(channel.owner.device.log), ResetFrames(selected, channel.channel),
          [ByteFrame(MATCH_ROM)] + WriteFrames(address));
      }
    } else {
      r := Fail(reset.error);
    }
  }

  /** The writes after the reset: MATCH ROM, then the address bytes. */
  method MatchRom(channel: Ds2482Channel, address: seq<bv8>) returns (r: Outcome)
    modifies channel.owner.device
    ensures r.Pass? <==> WritePolls(old(channel.owner.device.replies), 1 + |address|).Some?
    ensures r.Pass? ==>
      channel.owner.device.replies == WritePolls(old(channel.owner.device.replies), 1 + |address|).value &&
      channel.owner.device.log == old(channel.owner.device.log) + ([ByteFrame(MATCH_ROM)] + WriteFrames(address))
    ensures r.Fail? ==> r == Fail(I2cIoError)
    ensures channel.owner.device.disposed == old(channel.owner.device.disposed)
  {
    r := channel.OneWireWriteByte(MATCH_ROM);
    if r.Fail? {
      return r;
    }
    r := WriteAddress(channel, address);
  }

  /** StartTemperatureConversionAsync without its one-second wait: CONVERT T. */
  method StartTemperatureConversion(channel: Ds2482Channel) returns (r: Outcome)
    modifies channel.owner.device
    ensures channel.owner.device.log == old(channel.owner.device.log) + [ByteFrame(CONVERT_T)]
    ensures r.Pass? <==> WritePolls(old(channel.owner.device.replies), 1).Some?
    ensures r.Pass? ==> channel.owner.device.replies == WritePolls(old(channel.owner.device.replies), 1).value
    ensures r.Fail? ==> r == Fail(I2cIoError)
    ensures channel.owner.device.disposed == old(channel.owner.device.disposed)
  {
    r := channel.OneWireWriteByte(CONVERT_T);
  }

  /** GetTemperatureScratchpadAsync: address the sensor, strong pull-up,
      convert, address it again, read the scratchpad. With a nine-byte
      buffer the call fails exactly when ScratchpadReplies does, with the
      same error; on success the buffer holds the nine bytes the bus
      delivered and the result says whether they are valid. */
  method GetTemperatureScratchpad(sensor: OneWireDevice, scratchpad: array<bv8>) returns (r: Result<bool>)
    requires sensor.TempSensor?
    modifies scratchpad, sensor.channel.owner.device, sensor.channel.owner`selected
    ensures scratchpad.Length != 9 ==> r.Err?
    ensures scratchpad.Length == 9 ==>
      var read := ScratchpadReplies(old(sensor.channel.owner.IsCorrectChannelSelected(sensor.channel.channel)),
        sensor.channel.channel, sensor.address, old(sensor.channel.owner.device.replies));
      (r.Ok? <==> read.Ok?) && (r.Err? ==> r.error == read.error) &&
      (r.Ok? ==>
        scratchpad[..] == read.value.0 && sensor.channel.owner.device.replies == read.value.1 &&
        r.value == ValidScratchpad(read.value.0))
    ensures r.Ok? ==>
      var ch, address := sensor.channel.channel, sensor.address;
      sensor.channel.owner.device.log == old(sensor.channel.owner.device.log) +
        MatchFrames(old(sensor.channel.owner.IsCorrectChannelSelected(ch)), ch, address) +
        [Frame.Write([WRITE_CONFIGURATION, 0xB4])] + [ByteFrame(CONVERT_T)] +
        MatchFrames(true, ch, address) +
        [ByteFrame(READ_SCRATCHPAD)] + ReadFrames(9)
    ensures sensor.channel.owner.device.disposed == old(sensor.channel.owner.device.disposed)
  {
    var channel, device := sensor.channel, sensor.channel.owner.device;
    var matched := ResetOneWireAndMatchDeviceRomAddress(channel, sensor.address);
    if matched.Fail? {
      return Err(matched.error);
    }
    channel.EnableStrongPullup();
    var converted := StartTemperatureConversion(channel);
    if converted.Fail? {
      return Err(converted.error);
    }
    matched := ResetOneWireAndMatchDeviceRomAddress(channel, sensor.address);
    if matched.Fail? {
      return Err(matched.error);
    }
    r := ReadScratchpad(channel, scratchpad);
  }

  /** The decoder GetTemp_Read of the sensor's kind. */
  function TemperatureOf(kind: SensorKind, scratchpad: seq<bv8>): (r: Reading)
    requires |scratchpad| == 9
    ensures r == NoValue ==> kind == DS18S20
    ensures r.Celsius? <==>
      kind == DS18B20 || (!(scratchpad[TemperatureLsb] == 0x50 && scratchpad[TemperatureMsb] == 0x05) &&
                          scratchpad[CountPerC] != 0)
  {
    match kind
    case DS18B20 => Celsius(Ds18b20Celsius(scratchpad))
    case DS18S20 => Ds18s20Reading(scratchpad)
  }

  /** GetTemperatureAsync: fails exactly when reading the scratchpad does;
      otherwise no value when the scratchpad is not valid, the decoded
      temperature of the bytes read when it is. */
  method GetTemperature(sensor: OneWireDevice) returns (r: Result<Reading>)
    requires sensor.TempSensor?
    modifies sensor.channel.owner.device, sensor.channel.owner`selected
    ensures var read := ScratchpadReplies(old(sensor.channel.owner.IsCorrectChannelSelected(sensor.channel.channel)),
        sensor.channel.channel, sensor.address, old(sensor.channel.owner.device.replies));
      (r.Ok? <==> read.Ok?) && (r.Err? ==> r.error == read.error) &&
      (r.Ok? ==>
        sensor.channel.owner.device.replies == read.value.1 && |read.value.0| == 9 &&
        r.value == if ValidScratchpad(read.value.0) then TemperatureOf(sensor.kind, read.value.0) else NoValue)
    ensures sensor.channel.owner.device.disposed == old(sensor.channel.owner.device.disposed)
  {
    var scratchpad := new bv8[9];
    var result := GetTemperatureScratchpad(sensor, scratchpad);
    if result.Err? {
      return Err(result.error);
    }
    if !result.value {
      return Ok(NoValue);
    }
    return Ok(TemperatureOf(sensor.kind, scratchpad[..]));
  }
}
