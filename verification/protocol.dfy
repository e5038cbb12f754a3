/** The DS2482 command set, register codes and status-register bits used by
    DS2482Channel, and the pure reading of a status byte and of a stream of
    polled status bytes. */
module Ds2482Protocol {
  import opened Errors
  import opened ExtensionMethods

  // FunctionCommand
  const DEVICE_RESET: bv8 := 0xF0
  const SET_READ_POINTER: bv8 := 0xE1
  const WRITE_CONFIGURATION: bv8 := 0xD2
  const CHANNEL_SELECT: bv8 := 0xC3
  const ONEWIRE_RESET: bv8 := 0xB4
  const ONEWIRE_SINGLE_BIT: bv8 := 0x87
  const ONEWIRE_WRITE_BYTE: bv8 := 0xA5
  const ONEWIRE_READ_BYTE: bv8 := 0x96
  const ONEWIRE_TRIPLET: bv8 := 0x78

  // RegisterSelection
  const STATUS_REGISTER: bv8 := 0xF0
  const READ_DATA_REGISTER: bv8 := 0xE1
  const CHANNEL_SELECTION_REGISTER: bv8 := 0xD2
  const CONFIGURATION_REGISTER: bv8 := 0xC3

  // StatusBit
  const BranchDirectionTaken := 7
  const TripletSecondBit := 6
  const SingleBitResult := 5
  const DeviceReset := 4
  const LogicLevel := 3
  const ShortDetectedBit := 2
  const PresencePulseDetected := 1
  const OneWireBusy := 0

  /** The eight 1-Wire channels of the DS2482-800; the DS2482-100 has only IO0. */
  datatype OneWireChannel = IO0 | IO1 | IO2 | IO3 | IO4 | IO5 | IO6 | IO7

  /** The byte written after CHANNEL_SELECT for each channel (ChannelSelect). */
  function ChannelCode(ch: OneWireChannel): bv8
  {
    match ch
    case IO0 => 0xF0 case IO1 => 0xE1 case IO2 => 0xD2 case IO3 => 0xC3
    case IO4 => 0xB4 case IO5 => 0xA5 case IO6 => 0x96 case IO7 => 0x87
  }

  /** The byte the chip echoes when the channel switch took effect
      (ChannelSelectVerification). */
  function ChannelVerification(ch: OneWireChannel): bv8
  {
    match ch
    case IO0 => 0xB8 case IO1 => 0xB1 case IO2 => 0xAA case IO3 => 0xA3
    case IO4 => 0x9C case IO5 => 0x95 case IO6 => 0x8E case IO7 => 0x87
  }

  /** Each code and each echo names one channel only, so a select cannot be
      mistaken for the select of another channel. */
  lemma ChannelCodesDistinct(a: OneWireChannel, b: OneWireChannel)
    ensures ChannelCode(a) == ChannelCode(b) ==> a == b
    ensures ChannelVerification(a) == ChannelVerification(b) ==> a == b
  {
  }

  /** The configuration byte EnableStrongPullup writes: bits 2, 7, 5 and 4. */
  function StrongPullupConfiguration(): (c: bv8)
    ensures c == 0xB4
  {
    var configuration: bv8 := 0;
    var configuration := configuration | (1 << 2);
    var configuration := configuration | (1 << 7);
    var configuration := configuration | (1 << 5);
    configuration | (1 << 4)
  }

  /** The data byte of a single-bit command: 0x80 writes (and reads) a 1 slot. */
  function SingleBitByte(bit: bool): (b: bv8)
    ensures b == (if bit then 0x80 else 0x00)
  {
    var byteValue: bv8 := 0;
    if bit then byteValue | (1 << 7) else byteValue
  }

  predicate Busy(status: bv8)
  {
    GetBit(status, OneWireBusy)
  }

  /** What a reset reports for the status byte read after it: a short on the
      line is an error, otherwise the presence-pulse bit. */
  function ResetResult(status: bv8): (r: Result<bool>)
    ensures r.Err? <==> status & 0x04 != 0
    ensures r.Err? ==> r.error == ShortDetected
    ensures r.Ok? ==> (r.value <==> status & 0x02 != 0)
  {
    if GetBit(status, ShortDetectedBit) then Err(ShortDetected)
    else Ok(GetBit(status, PresencePulseDetected))
  }

  /** The first index at or after `from` whose status byte is not busy, or |s|
      when every remaining byte is busy. */
  function FirstReady(s: seq<bv8>, from: nat): (k: nat)
    requires from <= |s|
    ensures from <= k <= |s|
    ensures k < |s| ==> !Busy(s[k])
    ensures forall j :: from <= j < k ==> Busy(s[j])
    decreases |s| - from
  {
    if from == |s| then |s|
    else if !Busy(s[from]) then from
    else FirstReady(s, from + 1)
  }

  /** ReadStatus can finish on reply stream s: one first read, then at least one
      poll that sees the busy bit clear. */
  predicate Polled(s: seq<bv8>)
  {
    |s| >= 1 && FirstReady(s, 1) < |s|
  }

  /** The index of the status byte ReadStatus returns. */
  function PollEnd(s: seq<bv8>): (k: nat)
    requires Polled(s)
    ensures 1 <= k < |s| && !Busy(s[k])
  {
    FirstReady(s, 1)
  }

  /** The status byte ReadStatus returns. */
  function PolledStatus(s: seq<bv8>): bv8
    requires Polled(s)
  {
    s[PollEnd(s)]
  }

  /** The replies left once ReadStatus has returned. */
  function AfterPoll(s: seq<bv8>): (rest: seq<bv8>)
    requires Polled(s)
    ensures |rest| <= |s| - 2
  {
    s[PollEnd(s) + 1..]
  }

  /** How a status poll under a stopwatch guard ends: the bridge answered
      not busy at status read number count, or the guard gave up after
      count reads. */
  datatype PollEnding = Ready(count: nat) | TimedOut(count: nat)

  /** The milliseconds a stopwatch shows t milliseconds after it was
      created: one that was never started shows 0. */
  function Elapsed(started: bool, t: nat): nat
  {
    if started then t else 0
  }

  /** The do-while of ReadStatus with its stopwatch guard, on a bridge that
      answers busy to the first `busy` polled reads and not busy to the
      next one, each read taking ms milliseconds: before each read the
      guard gives up once the stopwatch shows more than limit milliseconds.
      `done` reads have been made so far. */
  function GuardedPoll(started: bool, busy: nat, ms: nat, limit: nat, done: nat): PollEnding
    requires done <= busy
    decreases busy - done
  {
    if Elapsed(started, done * ms) > limit then TimedOut(done)
    else if done == busy then Ready(busy + 1)
    else GuardedPoll(started, busy, ms, limit, done + 1)
  }

  /** As written, the stopwatch is never started, so the guard never fires:
      whatever the limit and however long the bridge stays busy, the poll
      ends only when the bridge answers not busy. A bridge that stays busy
      is polled forever. */
  lemma {:induction false} UnstartedPollNeverTimesOut(busy: nat, ms: nat, limit: nat, done: nat)
    requires done <= busy
    ensures GuardedPoll(false, busy, ms, limit, done) == Ready(busy + 1)
    decreases busy - done
  {
    if done < busy {
      UnstartedPollNeverTimesOut(busy, ms, limit, done + 1);
    }
  }

  /** With the stopwatch started, the guard bounds the poll: it gives up
      exactly when the bridge stays busy for longer than the limit, and
      never reads more than one status past the limit, however long the
      bridge stays busy. */
  lemma {:induction false} StartedPollGivesUp(busy: nat, ms: nat, limit: nat, done: nat)
    requires done <= busy && ms > 0
    requires done > 0 ==> (done - 1) * ms <= limit
    ensures var r := GuardedPoll(true, busy, ms, limit, done);
      r.count >= 1 && (r.count - 1) * ms <= limit && (r.TimedOut? <==> busy * ms > limit)
    decreases busy - done
  {
    if done * ms > limit {
      MulMonotonic(done, busy, ms);
    } else if done < busy {
      StartedPollGivesUp(busy, ms, limit, done + 1);
    }
  }

  lemma MulMonotonic(a: nat, b: nat, c: nat)
    requires a <= b
    ensures a * c <= b * c
  {
  }
}
