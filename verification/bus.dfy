/** The DS2482 bridge and its 1-Wire channels (DS2482.cs, DS2482_100.cs and
    DS2482Channel.cs). A channel drives the bridge's I2C device: it encodes
    each 1-Wire primitive as DS2482 commands, keeps the state of the ROM
    search between calls, and turns the ROM codes it finds into devices. The
    bridge owns the channels, remembers which channel is selected, and caches
    the devices found on all of them. */
module Bus {
  import opened Errors
  import opened ExtensionMethods
  import opened Crc8
  import opened RomCode
  import opened I2c
  import opened Ds2482Protocol
  import opened SearchSpec
  import opened SearchProperties

  /** The ROM commands of a 1-Wire slave that the driver issues. */
  const SEARCH_ROM: bv8 := 0xF0

  /** The sensor types the family-code table can name. */
  datatype SensorKind = DS18S20 | DS18B20

  /** A device found on a channel. A registered family becomes a sensor that
      holds its own copy of the ROM code; any other family becomes an
      UndefinedOneWireDevice holding the channel's live ROM_NO buffer itself. */
  datatype OneWireDevice =
    | TempSensor(kind: SensorKind, channel: Ds2482Channel, address: seq<bv8>)
    | Undefined(channel: Ds2482Channel, romBuffer: array<bv8>)

  /** The type argument of GetDevices<T>: the device classes and interfaces
      of the library. DS18S20 derives from DS18B20, so a DS18S20 is also a
      DS18B20. */
  datatype DeviceType = AnyOneWireDevice | AnyTempSensor | Ds18b20Type | Ds18s20Type | UndefinedType

  /** `device is T`, following the library's class hierarchy. */
  predicate IsOfType(d: OneWireDevice, t: DeviceType)
  {
    match t
    case AnyOneWireDevice => true
    case AnyTempSensor => d.TempSensor?
    case Ds18b20Type => d.TempSensor?
    case Ds18s20Type => d.TempSensor? && d.kind == DS18S20
    case UndefinedType => d.Undefined?
  }

  /** OfType<T>: the devices of type t, in their order. */
  function OfType(devices: seq<OneWireDevice>, t: DeviceType): (r: seq<OneWireDevice>)
    ensures |r| <= |devices|
    ensures forall i :: 0 <= i < |r| ==> r[i] in devices && IsOfType(r[i], t)
    ensures forall i :: 0 <= i < |devices| && IsOfType(devices[i], t) ==> devices[i] in r
  {
    if |devices| == 0 then []
    else (if IsOfType(devices[0], t) then [devices[0]] else []) + OfType(devices[1..], t)
  }

  /** Filtering keeps the relative order: filtering a concatenation is the
      concatenation of the filtered parts. */
  lemma {:induction false} OfTypeAppend(a: seq<OneWireDevice>, b: seq<OneWireDevice>, t: DeviceType)
    ensures OfType(a + b, t) == OfType(a, t) + OfType(b, t)
    decreases |a|
  {
    if |a| == 0 {
      assert a + b == b;
    } else {
      assert (a + b)[0] == a[0] && (a + b)[1..] == a[1..] + b;
      OfTypeAppend(a[1..], b, t);
    }
  }

  /** The channels a bridge variant offers: IO0 alone on the DS2482-100
      (DS2482_100.cs), IO0 to IO7 on the DS2482-800. */
  function ChannelList(variant: BridgeVariant): (list: seq<OneWireChannel>)
    ensures |list| >= 1 && list[0] == IO0
    ensures |list| > 1 ==> variant == Ds2482_800
  {
    match variant
    case Ds2482_100 => [IO0]
    case Ds2482_800 => [IO0, IO1, IO2, IO3, IO4, IO5, IO6, IO7]
  }

  /** Consecutive channels of a variant are different channels. */
  lemma ChannelListDistinct(variant: BridgeVariant, i: nat)
    requires 0 < i < |ChannelList(variant)|
    ensures ChannelList(variant)[i - 1] != ChannelList(variant)[i]
  {
  }

  /** The frame that selects a channel of the bridge. */
  function SelectFrame(ch: OneWireChannel): Frame
  {
    Frame.WriteRead([CHANNEL_SELECT, ChannelCode(ch)])
  }

  /** A reset command followed by ReadStatus on reply stream s: the reset
      result and the replies left over. */
  function PollReset(s: seq<bv8>): (Result<bool>, seq<bv8>)
  {
    if Polled(s) then (ResetResult(PolledStatus(s)), AfterPoll(s)) else (Err(I2cIoError), [])
  }

  /** The frame of one read slot (a single-bit command writing a 1). */
  function ReadSlot(): Frame
  {
    Frame.Write([ONEWIRE_SINGLE_BIT, SingleBitByte(true)])
  }

  /** The frames of the search steps: two read slots for the bit and its
      complement, then, unless both read 1, the direction taken, which is the
      bit of the ROM code at that position. */
  function BitFrames(pairs: seq<Pair>, bits: seq<bool>): seq<Frame>
    requires |bits| == 64 && |pairs| <= 64
  {
    if |pairs| == 0 then []
    else
      var k := |pairs| - 1;
      BitFrames(pairs[..k], bits) + PositionFrames(pairs[k], bits[k])
  }

  /** The frames of one search position: two read slots, then the direction
      written back unless no device answered. */
  function PositionFrames(p: Pair, dir: bool): seq<Frame>
  {
    [ReadSlot(), ReadSlot()] +
    (if NoDevices(p) then [] else [Frame.Write([ONEWIRE_SINGLE_BIT, SingleBitByte(dir)])])
  }

  lemma AppendAssoc<T>(a: seq<T>, b: seq<T>, c: seq<T>)
    ensures a + b + c == a + (b + c)
  {
  }

  /** The frames of earlier steps only depend on the ROM bits already written. */
  lemma {:induction false} BitFramesStable(pairs: seq<Pair>, bits: seq<bool>, bits': seq<bool>)
    requires |bits| == 64 && |bits'| == 64 && |pairs| <= 64
    requires bits[..|pairs|] == bits'[..|pairs|]
    ensures BitFrames(pairs, bits) == BitFrames(pairs, bits')
    decreases |pairs|
  {
    if |pairs| > 0 {
      var k := |pairs| - 1;
      assert bits[k] == bits[..|pairs|][k];
      assert bits[..k] == bits[..|pairs|][..k] && bits'[..k] == bits'[..|pairs|][..k];
      BitFramesStable(pairs[..k], bits, bits');
    }
  }

  lemma BitFramesSnoc(done: seq<Pair>, p: Pair, bits: seq<bool>, dir: bool)
    requires |bits| == 64 && |done| < 64 && !NoDevices(p)
    ensures BitFrames(done + [p], bits[|done| := dir]) == BitFrames(done, bits) + PositionFrames(p, dir)
  {
    assert (done + [p])[..|done|] == done;
    assert bits[..|done|] == bits[|done| := dir][..|done|];
    BitFramesStable(done, bits, bits[|done| := dir]);
  }

  lemma BitFramesAbort(done: seq<Pair>, p: Pair, bits: seq<bool>, dir: bool)
    requires |bits| == 64 && |done| < 64 && NoDevices(p)
    ensures BitFrames(done + [p], bits) == BitFrames(done, bits) + PositionFrames(p, dir)
  {
    assert (done + [p])[..|done|] == done;
  }

  /** The frames of a bus reset: the channel select unless the channel is
      already selected, then the reset command. */
  function ResetFrames(selected: bool, ch: OneWireChannel): seq<Frame>
  {
    (if selected then [] else [SelectFrame(ch)]) + [Frame.Write([ONEWIRE_RESET])]
  }

  /** OneWireReset on reply stream s: the result and the replies left over,
      the channel select taking the first reply unless already selected. */
  function ResetReplies(selected: bool, ch: OneWireChannel, s: seq<bv8>): (Result<bool>, seq<bv8>)
  {
    if selected then PollReset(s)
    else if s == [] then (Err(I2cIoError), [])
    else if s[0] != ChannelVerification(ch) then (Err(ChannelSelectFailed), s[1..])
    else PollReset(s[1..])
  }

  /** Whether the first reply is the verification byte of channel ch. */
  predicate SelectEchoed(ch: OneWireChannel, s: seq<bv8>)
  {
    s != [] && s[0] == ChannelVerification(ch)
  }

  /** The frames OneWireReset writes on reply stream s: the channel select
      unless already selected, then, unless the select failed, the reset. */
  function ResetLog(selected: bool, ch: OneWireChannel, s: seq<bv8>): seq<Frame>
  {
    if selected then [Frame.Write([ONEWIRE_RESET])]
    else if SelectEchoed(ch, s) then [SelectFrame(ch), Frame.Write([ONEWIRE_RESET])]
    else [SelectFrame(ch)]
  }

  /** The bit a read slot delivers on reply stream s: the single-bit result
      in the status the wait ends on. */
  function SlotBit(s: seq<bv8>): bool
    requires Polled(s)
  {
    GetBit(PolledStatus(s), SingleBitResult)
  }

  /** The replies one search position consumes from s: two read slots (the
      bit and its complement), then, unless both read 1, the wait after the
      direction is written. The pair read and the replies left over, or None
      when the replies run out. */
  function PositionReplies(s: seq<bv8>): Option<(Pair, seq<bv8>)>
  {
    if !Polled(s) || !Polled(AfterPoll(s)) then None
    else
      var p := Pair(SlotBit(s), SlotBit(AfterPoll(s)));
      var rest := AfterPoll(AfterPoll(s));
      if NoDevices(p) then Some((p, rest))
      else if Polled(rest) then Some((p, AfterPoll(rest)))
      else None
  }

  /** The replies that search positions answering pairs consume from s, in
      order: what is left, or None when the replies do not give those pairs. */
  function PairsReplies(s: seq<bv8>, pairs: seq<Pair>): Option<seq<bv8>>
    decreases |pairs|
  {
    if |pairs| == 0 then Some(s)
    else match PairsReplies(s, pairs[..|pairs| - 1])
      case None => None
      case Some(rest) =>
        match PositionReplies(rest)
        case Some((p, rest')) => if p == pairs[|pairs| - 1] then Some(rest') else None
        case None => None
  }

  lemma PairsRepliesSnoc(s: seq<bv8>, pairs: seq<Pair>, p: Pair, rest: seq<bv8>, rest': seq<bv8>)
    requires PairsReplies(s, pairs) == Some(rest) && PositionReplies(rest) == Some((p, rest'))
    ensures PairsReplies(s, pairs + [p]) == Some(rest')
  {
    assert (pairs + [p])[..|pairs|] == pairs;
  }

  /** A run of replies that gives some pairs also gives each prefix of them. */
  lemma {:induction false} PairsRepliesPrefix(s: seq<bv8>, pairs: seq<Pair>, k: nat)
    requires k <= |pairs| && PairsReplies(s, pairs).Some?
    ensures PairsReplies(s, pairs[..k]).Some?
    decreases |pairs| - k
  {
    if k < |pairs| {
      var shorter := pairs[..|pairs| - 1];
      assert shorter[..k] == pairs[..k];
      PairsRepliesPrefix(s, shorter, k);
    } else {
      assert pairs[..k] == pairs;
    }
  }

  /** Position k of a run of pairs is read from the replies left after the
      positions before it. */
  lemma PairsRepliesAt(s: seq<bv8>, pairs: seq<Pair>, k: nat)
    requires k < |pairs| && PairsReplies(s, pairs).Some?
    ensures PairsReplies(s, pairs[..k]).Some? && PairsReplies(s, pairs[..k + 1]).Some?
    ensures PositionReplies(PairsReplies(s, pairs[..k]).value) ==
      Some((pairs[k], PairsReplies(s, pairs[..k + 1]).value))
  {
    PairsRepliesPrefix(s, pairs, k + 1);
    PairsRepliesPrefix(s, pairs, k);
    assert pairs[..k + 1][..k] == pairs[..k];
  }

  /** Two runs of pairs that the same replies give agree on their common
      length. */
  lemma {:induction false} PairsRepliesAgree(s: seq<bv8>, a: seq<Pair>, b: seq<Pair>, n: nat)
    requires n <= |a| && n <= |b| && PairsReplies(s, a).Some? && PairsReplies(s, b).Some?
    ensures a[..n] == b[..n]
    ensures n > 0 ==> a[n - 1] == b[n - 1]
    decreases n
  {
    if n > 0 {
      PairsRepliesAgree(s, a, b, n - 1);
      PairsRepliesAt(s, a, n - 1);
      PairsRepliesAt(s, b, n - 1);
      var rest := PairsReplies(s, a[..n - 1]).value;
      assert PairsReplies(s, b[..n - 1]).value == rest;
      assert a[n - 1] == PositionReplies(rest).value.0 == b[n - 1];
      PrefixSnoc(a, n);
      PrefixSnoc(b, n);
    }
  }

  lemma PrefixSnoc<T>(a: seq<T>, n: nat)
    requires 0 < n <= |a|
    ensures a[..n] == a[..n - 1] + [a[n - 1]]
  {
  }

  /** The replies decide the pass: at most one run of pairs read to its end
      fits a reply stream. */
  lemma PairsRepliesDetermine(s: seq<bv8>, a: seq<Pair>, b: seq<Pair>)
    requires PassRead(a) && PassRead(b)
    requires PairsReplies(s, a).Some? && PairsReplies(s, b).Some?
    ensures a == b
  {
    if |a| <= |b| {
      PassReadsSameLength(s, a, b);
    } else {
      PassReadsSameLength(s, b, a);
    }
    PairsRepliesAgree(s, a, b, |a|);
    assert a == a[..|a|] && b == b[..|b|];
  }

  /** A pass read to its end is not the start of a longer one: it ends at
      position 64 or at a (1, 1), after which no answer is read. */
  lemma PassReadsSameLength(s: seq<bv8>, a: seq<Pair>, b: seq<Pair>)
    requires PassRead(a) && PassRead(b) && |a| <= |b|
    requires PairsReplies(s, a).Some? && PairsReplies(s, b).Some?
    ensures |a| == |b|
  {
    if |a| < |b| {
      PairsRepliesAgree(s, a, b, |a|);
      assert false;
    }
  }

  /** No pass read to its end fits reply stream s: the replies run out
      before any pass is complete. */
  ghost predicate NoPass(s: seq<bv8>)
  {
    forall pairs :: PassRead(pairs) ==> PairsReplies(s, pairs).None?
  }

  /** A pass whose answered positions done fit the replies, and whose next
      position finds the replies run out, cannot be read to its end. */
  lemma PassStuck(s: seq<bv8>, done: seq<Pair>, rest: seq<bv8>)
    requires Answered(done) && |done| < 64
    requires PairsReplies(s, done) == Some(rest) && PositionReplies(rest).None?
    ensures NoPass(s)
  {
    forall pairs | PassRead(pairs)
      ensures PairsReplies(s, pairs).None?
    {
      if PairsReplies(s, pairs).Some? {
        if |pairs| <= |done| {
          PairsRepliesAgree(s, pairs, done, |pairs|);
        } else {
          PairsRepliesAgree(s, pairs, done, |done|);
          assert done[..|done|] == done;
          PairsRepliesAt(s, pairs, |done|);
        }
        assert false;
      }
    }
  }

  /** The replies one call of OneWireSearch takes from s, from search state
      st, when it reads turn t: none when the last device was already found;
      otherwise the reset (after the channel select unless selected), and
      after a presence pulse the wait after the search command and the
      replies of a pass read to its end. None when the replies cannot give
      that turn. */
  function SearchReplies(selected: bool, ch: OneWireChannel, st: SearchState, s: seq<bv8>, t: Turn)
    : (r: Option<seq<bv8>>)
    ensures r.Some? ==> |t.pairs| <= 64
  {
    if st.lastDeviceFlag then (if t == Turn(false, []) then Some(s) else None)
    else
      var (reset, s1) := ResetReplies(selected, ch, s);
      if reset != Ok(t.presence) then None
      else if !t.presence then (if t.pairs == [] then Some(s1) else None)
      else if !Polled(s1) || !PassRead(t.pairs) then None
      else PairsReplies(AfterPoll(s1), t.pairs)
  }

  /** The replies decide what a call of OneWireSearch read: at most one
      presence result and one pass fit a reply stream. */
  lemma SearchRepliesDetermineTurn(selected: bool, ch: OneWireChannel, st: SearchState, s: seq<bv8>, t: Turn, t': Turn)
    requires SearchReplies(selected, ch, st, s, t).Some? && SearchReplies(selected, ch, st, s, t').Some?
    ensures t == t'
  {
    if !st.lastDeviceFlag && t.presence {
      var s1 := ResetReplies(selected, ch, s).1;
      PairsRepliesDetermine(AfterPoll(s1), t.pairs, t'.pairs);
    }
  }

  /** No call of OneWireSearch from search state st can read a turn from
      reply stream s. */
  ghost predicate NoTurn(selected: bool, ch: OneWireChannel, st: SearchState, s: seq<bv8>)
  {
    forall t :: SearchReplies(selected, ch, st, s, t).None?
  }

  /** The replies give no turn when the reset fails, or when it finds devices
      present but the wait after the search command or the pass runs out of
      replies. */
  lemma SearchStuck(selected: bool, ch: OneWireChannel, st: SearchState, s: seq<bv8>)
    requires !st.lastDeviceFlag
    requires var (reset, s1) := ResetReplies(selected, ch, s);
      reset.Err? || (reset == Ok(true) && (!Polled(s1) || NoPass(AfterPoll(s1))))
    ensures NoTurn(selected, ch, st, s)
  {
  }

  /** The frames one call of OneWireSearch writes from search state st when
      it reads turn t and leaves ROM code rom: none when the last device was
      already found; otherwise the reset, and after a presence pulse the
      search command and the frames of the pass, whose directions are the
      bits of the new ROM code. */
  function SearchFrames(selected: bool, ch: OneWireChannel, st: SearchState, t: Turn, rom: seq<bv8>): seq<Frame>
    requires |rom| == 8 && |t.pairs| <= 64
  {
    if st.lastDeviceFlag then []
    else if t.presence then
      ResetFrames(selected, ch) + [Frame.Write([ONEWIRE_WRITE_BYTE, SEARCH_ROM])] + BitFrames(t.pairs, Bits(rom))
    else ResetFrames(selected, ch)
  }

  /** The replies of a search that found devices present: the reset, then
      the pass. */
  lemma SearchRepliesPresent(selected: bool, ch: OneWireChannel, st: SearchState, s: seq<bv8>, pairs: seq<Pair>,
                             rest: seq<bv8>)
    requires !st.lastDeviceFlag && |pairs| <= 64
    requires ResetReplies(selected, ch, s).0 == Ok(true)
    requires PassRead(pairs) && Polled(ResetReplies(selected, ch, s).1)
    requires PairsReplies(AfterPoll(ResetReplies(selected, ch, s).1), pairs) == Some(rest)
    ensures SearchReplies(selected, ch, st, s, Turn(true, pairs)) == Some(rest)
  {
  }

  /** The frames of a search that found devices present: the reset, the
      search command, then the pass. */
  lemma SearchFramesPresent(selected: bool, ch: OneWireChannel, st: SearchState, pairs: seq<Pair>, rom: seq<bv8>,
                            log0: seq<Frame>)
    requires !st.lastDeviceFlag && |rom| == 8 && |pairs| <= 64
    ensures log0 + ResetFrames(selected, ch) + ([Frame.Write([ONEWIRE_WRITE_BYTE, SEARCH_ROM])] + BitFrames(pairs, Bits(rom)))
      == log0 + SearchFrames(selected, ch, st, Turn(true, pairs), rom)
  {
    var reset, search, pass := ResetFrames(selected, ch), [Frame.Write([ONEWIRE_WRITE_BYTE, SEARCH_ROM])],
      BitFrames(pairs, Bits(rom));
    AppendAssoc(log0, reset, search + pass);
    AppendAssoc(reset, search, pass);
  }

  /** What the enumeration loop has produced after some turns: the ROM codes
      found, the search state, whether the last turn found a device (the
      loop goes on only then), the replies left and the frames written. */
  datatype Enumeration = Enumeration(
    codes: seq<seq<bv8>>, state: SearchState, more: bool, rest: seq<bv8>, frames: seq<Frame>)

  /** The enumeration loop of GetConnectedOneWireDevices on channel ch, once
      it is selected, from search state st and reply stream s, over the turns
      read: each turn is a search from the state the turn before left, the
      ROM code is collected whenever one is found, and no turn follows one
      that found nothing. None when the replies cannot give those turns. */
  function Enumerate(ch: OneWireChannel, st: SearchState, s: seq<bv8>, turns: seq<Turn>): (r: Option<Enumeration>)
    requires |st.rom| == 8
    ensures r.Some? ==> |r.value.state.rom| == 8
    ensures r.Some? ==> forall i :: 0 <= i < |r.value.codes| ==> |r.value.codes[i]| == 8
    decreases |turns|
  {
    if |turns| == 0 then Some(Enumeration([], st, true, s, []))
    else match Enumerate(ch, st, s, turns[..|turns| - 1])
      case None => None
      case Some(e) =>
        var t := turns[|turns| - 1];
        if !e.more then None
        else match SearchReplies(true, ch, e.state, e.rest, t)
          case None => None
          case Some(rest) =>
            var (found, st') := Search(e.state, t.presence, t.pairs);
            Some(Enumeration(e.codes + (if found then [st'.rom] else []), st', found, rest,
                             e.frames + SearchFrames(true, ch, e.state, t, st'.rom)))
  }

  /** One more turn of the enumeration loop. */
  lemma EnumerateSnoc(ch: OneWireChannel, st: SearchState, s: seq<bv8>, turns: seq<Turn>, t: Turn, rest: seq<bv8>)
    requires |st.rom| == 8 && Enumerate(ch, st, s, turns).Some?
    requires Enumerate(ch, st, s, turns).value.more
    requires SearchReplies(true, ch, Enumerate(ch, st, s, turns).value.state, Enumerate(ch, st, s, turns).value.rest, t)
      == Some(rest)
    ensures var e := Enumerate(ch, st, s, turns).value;
      var (found, st') := Search(e.state, t.presence, t.pairs);
      Enumerate(ch, st, s, turns + [t]) ==
        Some(Enumeration(e.codes + (if found then [st'.rom] else []), st', found, rest,
                         e.frames + SearchFrames(true, ch, e.state, t, st'.rom)))
  {
    assert (turns + [t])[..|turns|] == turns;
  }

  /** Every ROM code an enumeration collects has a CRC of 0 and a non-zero
      family byte. */
  lemma {:induction false} EnumerateCodesValid(ch: OneWireChannel, st: SearchState, s: seq<bv8>, turns: seq<Turn>)
    requires |st.rom| == 8 && Enumerate(ch, st, s, turns).Some?
    ensures var codes := Enumerate(ch, st, s, turns).value.codes;
      forall i :: 0 <= i < |codes| ==> Crc(codes[i]) == 0 && codes[i][0] != 0
    decreases |turns|
  {
    if |turns| > 0 {
      var prefix := turns[..|turns| - 1];
      EnumerateCodesValid(ch, st, s, prefix);
      var e := Enumerate(ch, st, s, prefix).value;
      var t := turns[|turns| - 1];
      assert SearchReplies(true, ch, e.state, e.rest, t).Some?;
      if Search(e.state, t.presence, t.pairs).0 {
        SearchFoundValid(e.state, t.presence, t.pairs);
      }
    }
  }

  /** A turn read by a search from the state the enumeration reached, on the
      replies it left, extends the enumeration by that turn. */
  lemma EnumerateTurn(ch: OneWireChannel, st0: SearchState, s1: seq<bv8>, log1: seq<Frame>, turns: seq<Turn>,
                      e: Enumeration, t: Turn, found: bool, st': SearchState, rest: seq<bv8>, log: seq<Frame>)
    requires |st0.rom| == 8 && Enumerate(ch, st0, s1, turns) == Some(e) && e.more
    requires |t.pairs| <= 64 && (found, st') == Search(e.state, t.presence, t.pairs)
    requires SearchReplies(true, ch, e.state, e.rest, t) == Some(rest)
    requires log == log1 + e.frames + SearchFrames(true, ch, e.state, t, st'.rom)
    ensures Enumerate(ch, st0, s1, turns + [t]) ==
      Some(Enumeration(e.codes + (if found then [st'.rom] else []), st', found, rest,
                       e.frames + SearchFrames(true, ch, e.state, t, st'.rom)))
    ensures log == log1 + (e.frames + SearchFrames(true, ch, e.state, t, st'.rom))
  {
    EnumerateSnoc(ch, st0, s1, turns, t, rest);
    AppendAssoc(log1, e.frames, SearchFrames(true, ch, e.state, t, st'.rom));
  }

  /** The enumeration over turns cannot go on: no further turn fits the
      replies. */
  ghost predicate EnumerationEnds(ch: OneWireChannel, st: SearchState, s: seq<bv8>, turns: seq<Turn>)
    requires |st.rom| == 8
  {
    forall t :: Enumerate(ch, st, s, turns + [t]).None?
  }

  /** An enumeration ends when its last turn found nothing, or when no
      search from the state it reached can read a turn from the replies it
      left. */
  lemma EnumerateEnds(ch: OneWireChannel, st: SearchState, s: seq<bv8>, turns: seq<Turn>)
    requires |st.rom| == 8 && Enumerate(ch, st, s, turns).Some?
    requires var e := Enumerate(ch, st, s, turns).value; !e.more || NoTurn(true, ch, e.state, e.rest)
    ensures EnumerationEnds(ch, st, s, turns)
  {
    forall t
      ensures Enumerate(ch, st, s, turns + [t]).None?
    {
      assert (turns + [t])[..|turns|] == turns;
    }
  }

  /** What GetConnectedOneWireDevices produces on one channel: the ROM codes
      found, whether it completed, the replies left and the frames written. */
  datatype ChannelRun = ChannelRun(codes: seq<seq<bv8>>, passed: bool, rest: seq<bv8>, frames: seq<Frame>)

  /** GetConnectedOneWireDevices on channel ch from search state st and reply
      stream s, over the search turns read: a bus reset, and when a device
      answers it, the enumeration from the cleared search state. A failed
      reset or a bus with no device reads no turn; a run whose last turn
      found a device has not completed. */
  function RunChannel(selected: bool, ch: OneWireChannel, st: SearchState, s: seq<bv8>, turns: seq<Turn>)
    : (r: Option<ChannelRun>)
    requires |st.rom| == 8
    ensures r.Some? ==> forall i :: 0 <= i < |r.value.codes| ==> |r.value.codes[i]| == 8
  {
    var (reset, s1) := ResetReplies(selected, ch, s);
    if reset != Ok(true) then
      (if turns == [] then Some(ChannelRun([], reset.Ok?, s1, ResetLog(selected, ch, s))) else None)
    else match Enumerate(ch, Restart(st.rom, st.crc8), s1, turns)
      case None => None
      case Some(e) => Some(ChannelRun(e.codes, !e.more, e.rest, ResetFrames(selected, ch) + e.frames))
  }

  /** Every ROM code a channel run collects is a valid one. */
  lemma RunChannelCodesValid(selected: bool, ch: OneWireChannel, st: SearchState, s: seq<bv8>, turns: seq<Turn>)
    requires |st.rom| == 8 && RunChannel(selected, ch, st, s, turns).Some?
    ensures var codes := RunChannel(selected, ch, st, s, turns).value.codes;
      forall i :: 0 <= i < |codes| ==> Crc(codes[i]) == 0 && codes[i][0] != 0
  {
    if ResetReplies(selected, ch, s).0 == Ok(true) {
      EnumerateCodesValid(ch, Restart(st.rom, st.crc8), ResetReplies(selected, ch, s).1, turns);
    }
  }

  /** RunChannel after a reset that failed or saw no presence pulse. */
  lemma RunChannelNoDevice(selected: bool, ch: OneWireChannel, st: SearchState, s: seq<bv8>)
    requires |st.rom| == 8 && ResetReplies(selected, ch, s).0 != Ok(true)
    ensures RunChannel(selected, ch, st, s, []) ==
      Some(ChannelRun([], ResetReplies(selected, ch, s).0.Ok?, ResetReplies(selected, ch, s).1, ResetLog(selected, ch, s)))
  {
  }

  /** RunChannel after a reset that saw a presence pulse. */
  lemma RunChannelEnumerated(selected: bool, ch: OneWireChannel, st: SearchState, s: seq<bv8>, turns: seq<Turn>,
                             e: Enumeration)
    requires |st.rom| == 8 && ResetReplies(selected, ch, s).0 == Ok(true)
    requires Enumerate(ch, Restart(st.rom, st.crc8), ResetReplies(selected, ch, s).1, turns) == Some(e)
    ensures RunChannel(selected, ch, st, s, turns) == Some(ChannelRun(e.codes, !e.more, e.rest, ResetFrames(selected, ch) + e.frames))
  {
  }

  /** The channel run over turns cannot go on: no further turn fits the
      replies. */
  ghost predicate ChannelEnds(selected: bool, ch: OneWireChannel, st: SearchState, s: seq<bv8>, turns: seq<Turn>)
    requires |st.rom| == 8
  {
    forall t :: RunChannel(selected, ch, st, s, turns + [t]).None?
  }

  /** A channel run ends when the reset saw no presence pulse or failed, or
      when its enumeration ends. */
  lemma RunChannelEnds(selected: bool, ch: OneWireChannel, st: SearchState, s: seq<bv8>, turns: seq<Turn>)
    requires |st.rom| == 8 && RunChannel(selected, ch, st, s, turns).Some?
    requires ResetReplies(selected, ch, s).0 == Ok(true) ==>
      EnumerationEnds(ch, Restart(st.rom, st.crc8), ResetReplies(selected, ch, s).1, turns)
    ensures ChannelEnds(selected, ch, st, s, turns)
  {
  }

  /** An enumeration over some turns also gives each prefix of them. */
  lemma {:induction false} EnumeratePrefix(ch: OneWireChannel, st: SearchState, s: seq<bv8>, turns: seq<Turn>, n: nat)
    requires |st.rom| == 8 && n <= |turns| && Enumerate(ch, st, s, turns).Some?
    ensures Enumerate(ch, st, s, turns[..n]).Some?
    decreases |turns| - n
  {
    if n < |turns| {
      var shorter := turns[..|turns| - 1];
      assert shorter[..n] == turns[..n] by {
        forall i | 0 <= i < n
          ensures shorter[..n][i] == turns[..n][i]
        {
        }
      }
      EnumerateLast(ch, st, s, turns);
      EnumeratePrefix(ch, st, s, shorter, n);
    } else {
      assert turns[..n] == turns;
    }
  }

  /** Two enumerations the same replies give agree on their common length. */
  lemma {:induction false} EnumerateAgree(ch: OneWireChannel, st: SearchState, s: seq<bv8>, a: seq<Turn>,
                                          b: seq<Turn>, n: nat)
    requires |st.rom| == 8 && n <= |a| && n <= |b|
    requires Enumerate(ch, st, s, a).Some? && Enumerate(ch, st, s, b).Some?
    ensures a[..n] == b[..n]
    decreases n
  {
    if n > 0 {
      EnumerateAgree(ch, st, s, a, b, n - 1);
      EnumeratePrefix(ch, st, s, a, n);
      EnumeratePrefix(ch, st, s, b, n);
      var an, bn := a[..n], b[..n];
      assert an[..n - 1] == a[..n - 1] && bn[..n - 1] == b[..n - 1];
      EnumerateSameTurn(ch, st, s, an, bn);
      PrefixSnoc(a, n);
      PrefixSnoc(b, n);
    }
  }

  /** Two enumerations of the same length that the same replies give, and
      that agree before their last turn, agree on it too. */
  lemma EnumerateSameTurn(ch: OneWireChannel, st: SearchState, s: seq<bv8>, a: seq<Turn>, b: seq<Turn>)
    requires |st.rom| == 8 && |a| == |b| > 0 && a[..|a| - 1] == b[..|b| - 1]
    requires Enumerate(ch, st, s, a).Some? && Enumerate(ch, st, s, b).Some?
    ensures a[|a| - 1] == b[|b| - 1]
  {
    EnumerateLast(ch, st, s, a);
    EnumerateLast(ch, st, s, b);
    var e := Enumerate(ch, st, s, a[..|a| - 1]).value;
    SearchRepliesDetermineTurn(true, ch, e.state, e.rest, a[|a| - 1], b[|b| - 1]);
  }

  /** The last turn of an enumeration was read by a search from the state
      and on the replies the turns before it left. */
  lemma EnumerateLast(ch: OneWireChannel, st: SearchState, s: seq<bv8>, turns: seq<Turn>)
    requires |st.rom| == 8 && |turns| > 0 && Enumerate(ch, st, s, turns).Some?
    ensures var e := Enumerate(ch, st, s, turns[..|turns| - 1]);
      e.Some? && SearchReplies(true, ch, e.value.state, e.value.rest, turns[|turns| - 1]).Some?
  {
  }

  /** A shorter enumeration the replies give is extended by the next turn of
      a longer one. */
  lemma EnumerateExtends(ch: OneWireChannel, st: SearchState, s: seq<bv8>, a: seq<Turn>, b: seq<Turn>)
    requires |st.rom| == 8 && |a| < |b|
    requires Enumerate(ch, st, s, a).Some? && Enumerate(ch, st, s, b).Some?
    ensures Enumerate(ch, st, s, a + [b[|a|]]).Some?
  {
    EnumeratePrefix(ch, st, s, b, |a| + 1);
    EnumerateAgree(ch, st, s, a, b, |a|);
    assert a == b[..|a|] by {
      assert a[..|a|] == a;
    }
    PrefixSnoc(b, |a| + 1);
  }

  /** The replies decide the enumeration: at most one run of turns that
      ends fits them. */
  lemma EnumerationDetermined(ch: OneWireChannel, st: SearchState, s: seq<bv8>, a: seq<Turn>, b: seq<Turn>)
    requires |st.rom| == 8
    requires Enumerate(ch, st, s, a).Some? && EnumerationEnds(ch, st, s, a)
    requires Enumerate(ch, st, s, b).Some? && EnumerationEnds(ch, st, s, b)
    ensures a == b
  {
    if |a| < |b| {
      EnumerateExtends(ch, st, s, a, b);
      assert false;
    } else if |b| < |a| {
      EnumerateExtends(ch, st, s, b, a);
      assert false;
    } else {
      EnumerateAgree(ch, st, s, a, b, |a|);
      assert a == a[..|a|] && b == b[..|b|];
    }
  }

  /** The replies decide a channel run: at most one run of turns that ends
      fits them, so GetConnectedOneWireDevices reads exactly the turns the
      bus answers. */
  lemma ChannelRunDetermined(selected: bool, ch: OneWireChannel, st: SearchState, s: seq<bv8>, a: seq<Turn>,
                             b: seq<Turn>)
    requires |st.rom| == 8
    requires RunChannel(selected, ch, st, s, a).Some? && ChannelEnds(selected, ch, st, s, a)
    requires RunChannel(selected, ch, st, s, b).Some? && ChannelEnds(selected, ch, st, s, b)
    ensures a == b
  {
    var (reset, s1) := ResetReplies(selected, ch, s);
    if reset == Ok(true) {
      var st0 := Restart(st.rom, st.crc8);
      forall t
        ensures Enumerate(ch, st0, s1, a + [t]).None? && Enumerate(ch, st0, s1, b + [t]).None?
      {
        assert RunChannel(selected, ch, st, s, a + [t]).None? && RunChannel(selected, ch, st, s, b + [t]).None?;
      }
      EnumerationDetermined(ch, st0, s1, a, b);
    }
  }

  /** The replies left after some channel runs: those the last run left, s
      when there is none. */
  function RunsRest(s: seq<bv8>, runs: seq<ChannelRun>): seq<bv8>
  {
    if runs == [] then s else runs[|runs| - 1].rest
  }

  /** The frames of some channel runs, in order. */
  function RunsFrames(runs: seq<ChannelRun>): seq<Frame>
  {
    if runs == [] then [] else RunsFrames(runs[..|runs| - 1]) + runs[|runs| - 1].frames
  }

  /** The foreach loop of InitializeDevices over channels chs, whose search
      states are sts, on reply stream s, given the turns each channel's
      enumeration read: one channel run after another, each on the replies
      the one before left; only the first channel may already be selected
      (each run that completes leaves its own channel selected), and no run
      follows one that failed. */
  function FillCache(chs: seq<OneWireChannel>, sts: seq<SearchState>, selected: bool, s: seq<bv8>,
                     turns: seq<seq<Turn>>): (r: Option<seq<ChannelRun>>)
    requires |sts| == |chs| && forall k :: 0 <= k < |sts| ==> |sts[k].rom| == 8
    ensures r.Some? ==> |r.value| == |turns| <= |chs|
    ensures r.Some? ==> forall k, i :: 0 <= k < |r.value| && 0 <= i < |r.value[k].codes| ==> |r.value[k].codes[i]| == 8
    decreases |turns|
  {
    if |turns| == 0 then Some([])
    else if |turns| > |chs| then None
    else match FillCache(chs, sts, selected, s, turns[..|turns| - 1])
      case None => None
      case Some(done) =>
        var k := |turns| - 1;
        if k > 0 && !done[k - 1].passed then None
        else match RunChannel(k == 0 && selected, chs[k], sts[k], RunsRest(s, done), turns[k])
          case None => None
          case Some(run) => Some(done + [run])
  }

  /** One more channel for FillCache. */
  lemma FillCacheSnoc(chs: seq<OneWireChannel>, sts: seq<SearchState>, selected: bool, s: seq<bv8>,
                      turns: seq<seq<Turn>>, done: seq<ChannelRun>, t: seq<Turn>, run: ChannelRun)
    requires |sts| == |chs| && forall k :: 0 <= k < |sts| ==> |sts[k].rom| == 8
    requires FillCache(chs, sts, selected, s, turns) == Some(done) && |turns| < |chs|
    requires |turns| > 0 ==> done[|turns| - 1].passed
    requires RunChannel(|turns| == 0 && selected, chs[|turns|], sts[|turns|], RunsRest(s, done), t) == Some(run)
    ensures FillCache(chs, sts, selected, s, turns + [t]) == Some(done + [run])
  {
    var turns' := turns + [t];
    assert turns'[..|turns'| - 1] == turns;
    assert turns'[|turns'| - 1] == t;
  }

  /** Every channel run of a fill read all the turns the replies allowed
      it. */
  ghost predicate RunsEnd(chs: seq<OneWireChannel>, sts: seq<SearchState>, selected: bool, s: seq<bv8>,
                          turns: seq<seq<Turn>>, fill: seq<ChannelRun>)
    requires |sts| == |chs| && forall k :: 0 <= k < |sts| ==> |sts[k].rom| == 8
  {
    forall k :: 0 <= k < |fill| && k < |turns| && k < |chs| ==>
      ChannelEnds(k == 0 && selected, chs[k], sts[k], RunsRest(s, fill[..k]), turns[k])
  }

  /** RunsEnd after one more run that ended. */
  lemma RunsEndSnoc(chs: seq<OneWireChannel>, sts: seq<SearchState>, selected: bool, s: seq<bv8>,
                    turns: seq<seq<Turn>>, fill: seq<ChannelRun>, t: seq<Turn>, run: ChannelRun)
    requires |sts| == |chs| && forall k :: 0 <= k < |sts| ==> |sts[k].rom| == 8
    requires |fill| == |turns| < |chs| && RunsEnd(chs, sts, selected, s, turns, fill)
    requires ChannelEnds(|fill| == 0 && selected, chs[|fill|], sts[|fill|], RunsRest(s, fill), t)
    ensures RunsEnd(chs, sts, selected, s, turns + [t], fill + [run])
  {
    forall k | 0 <= k < |fill| + 1
      ensures ChannelEnds(k == 0 && selected, chs[k], sts[k], RunsRest(s, (fill + [run])[..k]), (turns + [t])[k])
    {
      if k < |fill| {
        assert (fill + [run])[..k] == fill[..k];
      } else {
        assert (fill + [run])[..k] == fill;
      }
    }
  }

  /** The frames of one more run. */
  lemma RunsFramesSnoc(runs: seq<ChannelRun>, run: ChannelRun)
    ensures RunsFrames(runs + [run]) == RunsFrames(runs) + run.frames
  {
    assert (runs + [run])[..|runs|] == runs;
  }

  /** The search states of some channels, in order. */
  ghost function StatesOf(chans: seq<Ds2482Channel>): (sts: seq<SearchState>)
    reads chans, set c | c in chans :: c.romNo
    ensures |sts| == |chans|
    ensures forall k :: 0 <= k < |chans| ==> sts[k] == chans[k].State()
    decreases |chans|
  {
    if chans == [] then [] else StatesOf(chans[..|chans| - 1]) + [chans[|chans| - 1].State()]
  }

  /** The devices a cache gains from channel runs fill on channels chans:
      one per ROM code of each run, on that run's channel, in channel order. */
  ghost function CacheDevices(chans: seq<Ds2482Channel>, types: map<bv8, SensorKind>, fill: seq<ChannelRun>)
    : (ds: seq<OneWireDevice>)
    requires |fill| <= |chans|
    requires forall k, j :: 0 <= k < |fill| && 0 <= j < |fill[k].codes| ==> |fill[k].codes[j]| == 8
    decreases |fill|
  {
    if fill == [] then []
    else CacheDevices(chans, types, fill[..|fill| - 1]) + chans[|fill| - 1].DevicesFor(types, fill[|fill| - 1].codes)
  }

  /** The cache of a bridge whose channels chans (on bus channels chs, with
      search states starts, the first one selected or not as sel0 says)
      read turns, on reply stream s0 after frame log log0, with cache base
      before them: the channels made the runs fill and the cache holds
      devices, base followed by the devices of those runs. passed says that
      the last run completed, and then the replies left and the frame log
      are the ones those runs leave. */
  ghost predicate Cached(chans: seq<Ds2482Channel>, types: map<bv8, SensorKind>, chs: seq<OneWireChannel>,
                         starts: seq<SearchState>, sel0: bool, s0: seq<bv8>, log0: seq<Frame>,
                         base: seq<OneWireDevice>, turns: seq<seq<Turn>>, fill: seq<ChannelRun>, passed: bool,
                         replies: seq<bv8>, log: seq<Frame>, devices: seq<OneWireDevice>)
  {
    |chans| == |chs| && |starts| == |chs| && (forall k :: 0 <= k < |starts| ==> |starts[k].rom| == 8) &&
    FillCache(chs, starts, sel0, s0, turns) == Some(fill) &&
    devices == base + CacheDevices(chans, types, fill) &&
    (passed <==> fill == [] || fill[|fill| - 1].passed) &&
    (passed ==> replies == RunsRest(s0, fill) && log == log0 + RunsFrames(fill))
  }

  /** Cached after one more channel run, on the replies and after the log
      the runs before it left, which adds the devices for its ROM codes. */
  lemma CachedSnoc(chans: seq<Ds2482Channel>, types: map<bv8, SensorKind>, chs: seq<OneWireChannel>,
                   starts: seq<SearchState>, sel0: bool, s0: seq<bv8>, log0: seq<Frame>,
                   base: seq<OneWireDevice>, turns: seq<seq<Turn>>, fill: seq<ChannelRun>,
                   replies: seq<bv8>, log: seq<Frame>, devices: seq<OneWireDevice>,
                   t: seq<Turn>, run: ChannelRun, passed: bool, replies': seq<bv8>, log': seq<Frame>)
    requires Cached(chans, types, chs, starts, sel0, s0, log0, base, turns, fill, true, replies, log, devices)
    requires |turns| < |chs| && forall j :: 0 <= j < |run.codes| ==> |run.codes[j]| == 8
    requires FillCache(chs, starts, sel0, s0, turns + [t]) == Some(fill + [run])
    requires passed == run.passed && (passed ==> replies' == run.rest && log' == log + run.frames)
    ensures Cached(chans, types, chs, starts, sel0, s0, log0, base, turns + [t], fill + [run], passed, replies', log',
                   devices + chans[|turns|].DevicesFor(types, run.codes))
  {
    if passed {
      LogSnoc(log0, fill, run);
    }
    CacheDevicesSnoc(chans, types, base, fill, run);
  }

  /** The channel runs of a cache that has passed, after one more run on
      the replies the runs before it left. */
  lemma CachedRun(chans: seq<Ds2482Channel>, types: map<bv8, SensorKind>, chs: seq<OneWireChannel>,
                  starts: seq<SearchState>, sel0: bool, s0: seq<bv8>, log0: seq<Frame>,
                  base: seq<OneWireDevice>, turns: seq<seq<Turn>>, fill: seq<ChannelRun>,
                  replies: seq<bv8>, log: seq<Frame>, devices: seq<OneWireDevice>, t: seq<Turn>, run: ChannelRun)
    requires Cached(chans, types, chs, starts, sel0, s0, log0, base, turns, fill, true, replies, log, devices)
    requires |turns| < |chs|
    requires RunChannel(|turns| == 0 && sel0, chs[|turns|], starts[|turns|], replies, t) == Some(run)
    ensures FillCache(chs, starts, sel0, s0, turns + [t]) == Some(fill + [run])
  {
    FillCacheSnoc(chs, starts, sel0, s0, turns, fill, t, run);
  }

  /** The frame log after one more run. */
  lemma LogSnoc(log0: seq<Frame>, fill: seq<ChannelRun>, run: ChannelRun)
    ensures log0 + RunsFrames(fill + [run]) == (log0 + RunsFrames(fill)) + run.frames
  {
    RunsFramesSnoc(fill, run);
    AppendAssoc(log0, RunsFrames(fill), run.frames);
  }

  /** The cache after one more run: the devices of that run follow. */
  lemma CacheDevicesSnoc(chans: seq<Ds2482Channel>, types: map<bv8, SensorKind>, base: seq<OneWireDevice>,
                         fill: seq<ChannelRun>, run: ChannelRun)
    requires |fill| < |chans|
    requires forall k, j :: 0 <= k < |fill| && 0 <= j < |fill[k].codes| ==> |fill[k].codes[j]| == 8
    requires forall j :: 0 <= j < |run.codes| ==> |run.codes[j]| == 8
    ensures base + CacheDevices(chans, types, fill + [run]) ==
            (base + CacheDevices(chans, types, fill)) + chans[|fill|].DevicesFor(types, run.codes)
  {
    assert (fill + [run])[..|fill|] == fill;
    AppendAssoc(base, CacheDevices(chans, types, fill), chans[|fill|].DevicesFor(types, run.codes));
  }

  /** Every device the channel runs give the cache is on one of the
      channels and sound: a sensor carries a valid ROM code of a registered
      family. */
  lemma {:induction false} CacheDevicesSound(chans: seq<Ds2482Channel>, types: map<bv8, SensorKind>,
                                             chs: seq<OneWireChannel>, starts: seq<SearchState>, sel0: bool,
                                             s0: seq<bv8>, turns: seq<seq<Turn>>, fill: seq<ChannelRun>)
    requires |chans| == |chs| && |starts| == |chs| && forall k :: 0 <= k < |starts| ==> |starts[k].rom| == 8
    requires FillCache(chs, starts, sel0, s0, turns) == Some(fill)
    ensures forall j :: 0 <= j < |CacheDevices(chans, types, fill)| ==>
      CacheDevices(chans, types, fill)[j].channel in chans && SoundDevice(CacheDevices(chans, types, fill)[j], types)
    decreases |turns|
  {
    if turns != [] {
      var n := |turns| - 1;
      var done := FillCache(chs, starts, sel0, s0, turns[..n]).value;
      assert fill == done + [fill[n]];
      assert fill[..n] == done;
      CacheDevicesSound(chans, types, chs, starts, sel0, s0, turns[..n], done);
      RunChannelCodesValid(n == 0 && sel0, chs[n], starts[n], RunsRest(s0, done), turns[n]);
      var produced := chans[n].DevicesFor(types, fill[n].codes);
      ProducedDevices(produced, fill[n].codes, chans[n], types);
      assert CacheDevices(chans, types, fill) == CacheDevices(chans, types, done) + produced;
      SoundAppend(chans, types, CacheDevices(chans, types, done), produced, chans[n]);
    }
  }

  /** Sound devices on the channels, followed by sound devices on one of
      them, are sound devices on the channels. */
  lemma SoundAppend(chans: seq<Ds2482Channel>, types: map<bv8, SensorKind>, a: seq<OneWireDevice>,
                    b: seq<OneWireDevice>, ch: Ds2482Channel)
    requires forall j :: 0 <= j < |a| ==> a[j].channel in chans && SoundDevice(a[j], types)
    requires ch in chans && ChannelDevices(b, ch, types)
    ensures forall j :: 0 <= j < |a + b| ==> (a + b)[j].channel in chans && SoundDevice((a + b)[j], types)
  {
  }

  class Ds2482Channel {
    const owner: Ds2482
    const channel: OneWireChannel
    /** ROM_NO: the ROM code of the last device found. */
    const romNo: array<bv8>
    var lastDiscrepancy: int
    var lastFamilyDiscrepancy: int
    var lastDeviceFlag: bool
    var crc8: bv8

    predicate Valid()
    {
      romNo.Length == 8
    }

    constructor (ds2482: Ds2482, channel: OneWireChannel)
      ensures owner == ds2482 && this.channel == channel
      ensures fresh(romNo) && romNo.Length == 8 && romNo[..] == [0, 0, 0, 0, 0, 0, 0, 0]
      ensures lastDiscrepancy == 0 && lastFamilyDiscrepancy == 0 && !lastDeviceFlag && crc8 == 0
    {
      owner := ds2482;
      this.channel := channel;
      romNo := new bv8[8](_ => 0);
      lastDiscrepancy := 0;
      lastFamilyDiscrepancy := 0;
      lastDeviceFlag := false;
      crc8 := 0;
    }

    /** The search state as a value. */
    function State(): (st: SearchState)
      reads this, romNo
      ensures |st.rom| == romNo.Length
    {
      SearchState(romNo[..], lastDiscrepancy, lastFamilyDiscrepancy, lastDeviceFlag, crc8)
    }

    /** ReadStatus: one read (through the status read pointer when asked),
        then reads until the 1-Wire busy bit is clear; returns that byte. */
    method ReadStatus(setReadPointerToStatus: bool) returns (r: Result<bv8>)
      modifies owner.device
      ensures owner.device.log == old(owner.device.log) +
        (if setReadPointerToStatus then [Frame.WriteRead([SET_READ_POINTER, STATUS_REGISTER])] else [])
      ensures Polled(old(owner.device.replies)) ==>
        r == Ok(PolledStatus(old(owner.device.replies))) &&
        owner.device.replies == AfterPoll(old(owner.device.replies))
      ensures !Polled(old(owner.device.replies)) ==> r == Err(I2cIoError) && owner.device.replies == []
      ensures r.Ok? ==> !Busy(r.value)
      ensures owner.device.disposed == old(owner.device.disposed)
    {
      var device := owner.device;
      ghost var s := device.replies;
      var first: Result<bv8>;
      if setReadPointerToStatus {
        first := device.WriteRead([SET_READ_POINTER, STATUS_REGISTER]);
      } else {
        first := device.Read();
      }
      if first.Err? {
        return Err(first.error);
      }
      var status :- device.Read();
      ghost var k := 1;
      while Busy(status)
        invariant 1 <= k < |s| && status == s[k] && device.replies == s[k + 1..]
        invariant forall j :: 1 <= j < k ==> Busy(s[j])
        invariant device.log == old(device.log) +
          (if setReadPointerToStatus then [Frame.WriteRead([SET_READ_POINTER, STATUS_REGISTER])] else [])
        invariant device.disposed == old(device.disposed)
        decreases |device.replies|
      {
        status :- device.Read();
        k := k + 1;
      }
      return Ok(status);
    }

    /** SelectDS2482Channel: writes the channel's select code and checks the
        byte the chip echoes; only then records the channel as selected. */
    method SelectDs2482Channel() returns (r: Outcome)
      modifies owner.device, owner`selected
      ensures owner.device.log == old(owner.device.log) + [SelectFrame(channel)]
      ensures old(owner.device.replies) == [] ==> r == Fail(I2cIoError) && owner.device.replies == []
      ensures old(owner.device.replies) != [] ==>
        owner.device.replies == old(owner.device.replies)[1..] &&
        (r.Pass? <==> old(owner.device.replies)[0] == ChannelVerification(channel)) &&
        (r.Fail? ==> r.error == ChannelSelectFailed)
      ensures r.Fail? ==> owner.selected == old(owner.selected)
      ensures r.Pass? ==> owner.IsCorrectChannelSelected(channel)
      ensures r.Pass? ==> owner.selected == owner.SelectedAfter(old(owner.selected), channel)
      ensures owner.device.disposed == old(owner.device.disposed)
    {
      var echo := owner.device.WriteRead([CHANNEL_SELECT, ChannelCode(channel)]);
      if echo.Err? {
        return Fail(echo.error);
      }
      if echo.value != ChannelVerification(channel) {
        return Fail(ChannelSelectFailed);
      }
      owner.SetSelectedChannel(channel);
      return Pass;
    }

    /** OneWireReset: selects the channel unless the bridge says it already
        is, issues a 1-Wire reset and reads the status: a short is an error,
        otherwise the result is whether a presence pulse was seen. */
    method OneWireReset() returns (r: Result<bool>)
      modifies owner.device, owner`selected
      ensures owner.device.log ==
        old(owner.device.log) + ResetLog(old(owner.IsCorrectChannelSelected(channel)), channel, old(owner.device.replies))
      ensures owner.selected ==
        if old(owner.IsCorrectChannelSelected(channel)) || !SelectEchoed(channel, old(owner.device.replies))
        then old(owner.selected) else owner.SelectedAfter(old(owner.selected), channel)
      ensures (r, owner.device.replies) ==
        ResetReplies(old(owner.IsCorrectChannelSelected(channel)), channel, old(owner.device.replies))
      ensures r.Ok? ==> owner.IsCorrectChannelSelected(channel)
      ensures r.Ok? ==>
        owner.device.log == old(owner.device.log) + ResetFrames(old(owner.IsCorrectChannelSelected(channel)), channel)
      ensures r.Ok? ==> |owner.device.replies| <= |old(owner.device.replies)| - 2
      ensures owner.device.disposed == old(owner.device.disposed)
    {
      if !owner.IsCorrectChannelSelected(channel) {
        var selection := SelectDs2482Channel();
        if selection.Fail? {
          return Err(selection.error);
        }
      }
      owner.device.Write([ONEWIRE_RESET]);
      var status :- ReadStatus(false);
      if GetBit(status, ShortDetectedBit) {
        return Err(ShortDetected);
      }
      return Ok(GetBit(status, PresencePulseDetected));
    }

    /** OneWireWriteByte: the write-byte command, then waits for the bus. */
    method OneWireWriteByte(byteValue: bv8) returns (r: Outcome)
      modifies owner.device
      ensures owner.device.log == old(owner.device.log) + [Frame.Write([ONEWIRE_WRITE_BYTE, byteValue])]
      ensures Polled(old(owner.device.replies)) ==>
        r == Pass && owner.device.replies == AfterPoll(old(owner.device.replies))
      ensures !Polled(old(owner.device.replies)) ==> r == Fail(I2cIoError) && owner.device.replies == []
      ensures owner.device.disposed == old(owner.device.disposed)
    {
      owner.device.Write([ONEWIRE_WRITE_BYTE, byteValue]);
      var status := ReadStatus(false);
      if status.Err? {
        return Fail(status.error);
      }
      return Pass;
    }

    /** OneWireWriteBit: a single-bit command with bit 7 set for a 1. */
    method OneWireWriteBit(bitValue: bool) returns (r: Outcome)
      modifies owner.device
      ensures owner.device.log == old(owner.device.log) + [Frame.Write([ONEWIRE_SINGLE_BIT, SingleBitByte(bitValue)])]
      ensures Polled(old(owner.device.replies)) ==>
        r == Pass && owner.device.replies == AfterPoll(old(owner.device.replies))
      ensures !Polled(old(owner.device.replies)) ==> r == Fail(I2cIoError) && owner.device.replies == []
      ensures owner.device.disposed == old(owner.device.disposed)
    {
      var byteValue := SingleBitByte(bitValue);
      owner.device.Write([ONEWIRE_SINGLE_BIT, byteValue]);
      var status := ReadStatus(false);
      if status.Err? {
        return Fail(status.error);
      }
      return Pass;
    }

    /** OneWireReadBit: a read slot; the bit is the single-bit result of the
        status register. */
    method OneWireReadBit() returns (r: Result<bool>)
      modifies owner.device
      ensures owner.device.log == old(owner.device.log) + [ReadSlot()]
      ensures Polled(old(owner.device.replies)) ==>
        r == Ok(GetBit(PolledStatus(old(owner.device.replies)), SingleBitResult)) &&
        owner.device.replies == AfterPoll(old(owner.device.replies))
      ensures !Polled(old(owner.device.replies)) ==> r == Err(I2cIoError) && owner.device.replies == []
      ensures owner.device.disposed == old(owner.device.disposed)
    {
      var byteValue := SingleBitByte(true);
      owner.device.Write([ONEWIRE_SINGLE_BIT, byteValue]);
      var status :- ReadStatus(false);
      return Ok(GetBit(status, SingleBitResult));
    }

    /** OneWireReadByte: the read-byte command, a wait for the bus, then the
        read-data register. */
    method OneWireReadByte() returns (r: Result<bv8>)
      modifies owner.device
      ensures var s := old(owner.device.replies);
        if !Polled(s) then
          owner.device.log == old(owner.device.log) + [Frame.Write([ONEWIRE_READ_BYTE])] &&
          r == Err(I2cIoError) && owner.device.replies == []
        else
          owner.device.log == old(owner.device.log) +
            [Frame.Write([ONEWIRE_READ_BYTE]), Frame.WriteRead([SET_READ_POINTER, READ_DATA_REGISTER])] &&
          if AfterPoll(s) == [] then r == Err(I2cIoError) && owner.device.replies == []
          else r == Ok(AfterPoll(s)[0]) && owner.device.replies == AfterPoll(s)[1..]
      ensures owner.device.disposed == old(owner.device.disposed)
    {
      owner.device.Write([ONEWIRE_READ_BYTE]);
      var status :- ReadStatus(false);
      r := owner.device.WriteRead([SET_READ_POINTER, READ_DATA_REGISTER]);
    }

    /** EnableStrongPullup: writes the configuration byte 0xB4 (strong pull-up
        on, with the other configuration bits in their complemented upper
        nibble); nothing is read back. */
    method EnableStrongPullup()
      modifies owner.device
      ensures owner.device.log == old(owner.device.log) + [Frame.Write([WRITE_CONFIGURATION, 0xB4])]
      ensures owner.device.replies == old(owner.device.replies)
      ensures owner.device.disposed == old(owner.device.disposed)
    {
      var configuration := StrongPullupConfiguration();
      owner.device.Write([WRITE_CONFIGURATION, configuration]);
    }

    /** What one search call that started from state st, with selection
        `selected`, reply stream s and frame log log0, leaves behind when it
        returns found: the search read turn t, the state is the one Search
        gives, the replies left are those the turn did not consume, and the
        frames written are those of the turn. */
    ghost predicate Searched(selected: bool, st: SearchState, s: seq<bv8>, log0: seq<Frame>, t: Turn, found: bool)
      requires |st.rom| == 8
      reads this, romNo, owner.device
    {
      |t.pairs| <= 64 && romNo.Length == 8 &&
      (found, State()) == Search(st, t.presence, t.pairs) &&
      SearchReplies(selected, channel, st, s, t) == Some(owner.device.replies) &&
      owner.device.log == log0 + SearchFrames(selected, channel, st, t, romNo[..])
    }

    /** OneWireSearch: one pass of the search. Unless the last device was
        already found, resets the bus, sends the search command and walks the
        64 ROM bits, each read as a bit and its complement and answered with
        the direction chosen; the new search state is the one Search
        describes for the presence result and the pairs read. */
    method OneWireSearch() returns (r: Result<bool>, ghost presence: bool, ghost pairs: seq<Pair>)
      requires Valid()
      modifies this, romNo, owner.device, owner`selected
      ensures |pairs| <= 64
      ensures r.Ok? ==>
        Searched(old(owner.IsCorrectChannelSelected(channel)), old(State()), old(owner.device.replies),
          old(owner.device.log), Turn(presence, pairs), r.value)
      ensures old(lastDeviceFlag) ==>
        r == Ok(false) && unchanged(owner.device) && owner.selected == old(owner.selected)
      ensures r.Ok? && !old(lastDeviceFlag) ==> owner.IsCorrectChannelSelected(channel)
      ensures r == Ok(true) ==> |owner.device.replies| < |old(owner.device.replies)|
      ensures r.Err? ==> NoTurn(old(owner.IsCorrectChannelSelected(channel)), channel, old(State()), old(owner.device.replies))
      ensures r.Err? ==> lastDiscrepancy == old(lastDiscrepancy) && lastDeviceFlag == old(lastDeviceFlag)
      ensures owner.device.disposed == old(owner.device.disposed)
    {
      ghost var st0, sel0 := State(), owner.IsCorrectChannelSelected(channel);
      var searchResult := false;
      crc8 := 0;
      presence := false;
      pairs := [];
      if !lastDeviceFlag {
        var detected := OneWireReset();
        if detected.Err? {
          SearchStuck(sel0, channel, st0, old(owner.device.replies));
          return Err(detected.error), presence, pairs;
        }
        var present := detected.value;
        presence := present;
        if !present {
          lastDiscrepancy := 0;
          lastDeviceFlag := false;
          lastFamilyDiscrepancy := 0;
          return Ok(false), presence, pairs;
        }
        ghost var log1 := owner.device.log;
        ghost var bits;
        var pass;
        pass, pairs, bits := SearchPass(st0);
        if pass.Err? {
          SearchStuck(sel0, channel, st0, old(owner.device.replies));
          return Err(pass.error), presence, pairs;
        }
        searchResult := pass.value;
        BitsOfBytes(bits);
        SearchRepliesPresent(sel0, channel, st0, old(owner.device.replies), pairs, owner.device.replies);
        SearchFramesPresent(sel0, channel, st0, pairs, romNo[..], old(owner.device.log));
      }
      searchResult := AcceptResult(searchResult);
      r := Ok(searchResult);
    }

    /** GetConnectedOneWireDevices, run to the end: a bus reset, and when a
        device answers, OneWireFirst then OnoWireNext until a search returns
        false, with one device per ROM code found. An error ends the
        enumeration and keeps the devices already produced, as a consumer of
        the lazy sequence that has taken them. Every device found carries a
        valid ROM code, and a completed enumeration leaves the search state
        cleared. */
    method GetConnectedOneWireDevices(types: map<bv8, SensorKind>)
      returns (devices: seq<OneWireDevice>, r: Outcome, ghost detected: bool, ghost codes: seq<seq<bv8>>,
               ghost turns: seq<Turn>)
      requires Valid()
      modifies this, romNo, owner.device, owner`selected
      ensures var run := RunChannel(old(owner.IsCorrectChannelSelected(channel)), channel, old(State()),
                                    old(owner.device.replies), turns);
        run.Some? && codes == run.value.codes && (r.Pass? <==> run.value.passed) &&
        (r.Pass? ==>
          owner.device.replies == run.value.rest && owner.device.log == old(owner.device.log) + run.value.frames)
      ensures ChannelEnds(old(owner.IsCorrectChannelSelected(channel)), channel, old(State()), old(owner.device.replies),
                          turns)
      ensures devices == DevicesFor(types, codes)
      ensures var reset := ResetReplies(old(owner.IsCorrectChannelSelected(channel)), channel, old(owner.device.replies)).0;
        (reset.Err? ==> r == Fail(reset.error)) && (detected <==> reset == Ok(true))
      ensures !detected ==> devices == [] && turns == []
      ensures r.Pass? ==> owner.IsCorrectChannelSelected(channel)
      ensures r.Pass? && detected ==> lastDiscrepancy == 0 && lastFamilyDiscrepancy == 0 && !lastDeviceFlag
      ensures owner.device.disposed == old(owner.device.disposed)
    {
      devices, codes, detected, turns := [], [], false, [];
      ghost var st0, sel0, s0 := Restart(romNo[..], crc8), owner.IsCorrectChannelSelected(channel), owner.device.replies;
      var reset := OneWireReset();
      if reset.Err? {
        RunChannelNoDevice(sel0, channel, old(State()), s0);
        RunChannelEnds(sel0, channel, old(State()), s0, turns);
        return devices, Fail(reset.error), detected, codes, turns;
      }
      var deviceDetected := reset.value;
      detected := deviceDetected;
      if !deviceDetected {
        RunChannelNoDevice(sel0, channel, old(State()), s0);
        RunChannelEnds(sel0, channel, old(State()), s0, turns);
        return devices, Pass, detected, codes, turns;
      }
      ghost var e;
      devices, r, codes, turns, e := EnumerationLoop(types, st0, owner.device.replies, owner.device.log);
      RunChannelEnumerated(sel0, channel, old(State()), s0, turns, e);
      RunChannelEnds(sel0, channel, old(State()), s0, turns);
      AppendAssoc(old(owner.device.log), ResetFrames(sel0, channel), e.frames);
    }

    /** The do-while loop of GetConnectedOneWireDevices, on a channel whose
        reset saw a presence pulse and left replies s1 and frame log log1:
        OneWireFirst, then OnoWireNext while the last search found a device,
        one device per ROM code found. The turns read make up enumeration e
        from the cleared search state st0. */
    method EnumerationLoop(types: map<bv8, SensorKind>, ghost st0: SearchState, ghost s1: seq<bv8>,
                           ghost log1: seq<Frame>)
      returns (devices: seq<OneWireDevice>, r: Outcome, ghost codes: seq<seq<bv8>>, ghost turns: seq<Turn>,
               ghost e: Enumeration)
      requires Valid() && Enumerating(st0, s1, log1, [], Enumeration([], st0, true, s1, []))
      modifies this, romNo, owner.device, owner`selected
      ensures Enumerate(channel, st0, s1, turns) == Some(e) && e.codes == codes && (r.Pass? <==> !e.more)
      ensures EnumerationEnds(channel, st0, s1, turns)
      ensures devices == DevicesFor(types, codes)
      ensures r.Pass? ==>
        Enumerating(st0, s1, log1, turns, e) &&
        lastDiscrepancy == 0 && lastFamilyDiscrepancy == 0 && !lastDeviceFlag
      ensures owner.device.disposed == old(owner.device.disposed)
    {
      devices, r, codes, turns := [], Pass, [], [];
      e := Enumeration([], st0, true, s1, []);
      var first := true;
      var result := true;
      while result
        invariant Valid() && (first <==> turns == [])
        invariant Enumerating(st0, s1, log1, turns, e) && e.codes == codes && e.more == result
        invariant devices == DevicesFor(types, codes)
        invariant !result ==> lastDiscrepancy == 0 && lastFamilyDiscrepancy == 0 && !lastDeviceFlag
        invariant owner.device.disposed == old(owner.device.disposed)
        decreases if result then 1 else 0, |owner.device.replies|
      {
        var found, device;
        ghost var code, turn, e';
        found, device, code, turn, e' := EnumerationTurn(first, types, st0, s1, log1, turns, e);
        if found.Err? {
          return devices, Fail(found.error), codes, turns, e;
        }
        first := false;
        result := found.value;
        turns, e := turns + [turn], e';
        if result {
          devices := devices + [device];
          codes := codes + [code];
        }
      }
      EnumerateEnds(channel, st0, s1, turns);
    }

    /** The enumeration loop after some turns, started from search state st0
        on replies s1 with frame log log1: the channel stays selected, the
        search state is st0 until the first turn and the one the last turn
        left after it, and e, the enumeration of the turns read, holds the
        replies left and the frames written. */
    ghost predicate Enumerating(st0: SearchState, s1: seq<bv8>, log1: seq<Frame>, turns: seq<Turn>, e: Enumeration)
      reads this, romNo, owner, owner.device
    {
      romNo.Length == 8 && |st0.rom| == 8 && owner.IsCorrectChannelSelected(channel) &&
      (turns == [] ==> Restart(romNo[..], crc8) == st0) &&
      Enumerate(channel, st0, s1, turns) == Some(e) &&
      e.rest == owner.device.replies && owner.device.log == log1 + e.frames && (turns != [] ==> e.state == State())
    }

    /** One pass of the enumeration loop: NextDevice, and the enumeration one
        turn longer. */
    method EnumerationTurn(first: bool, types: map<bv8, SensorKind>, ghost st0: SearchState, ghost s1: seq<bv8>,
                           ghost log1: seq<Frame>, ghost turns: seq<Turn>, ghost e: Enumeration)
      returns (found: Result<bool>, device: OneWireDevice, ghost code: seq<bv8>, ghost turn: Turn,
               ghost e': Enumeration)
      requires Valid() && (first <==> turns == []) && Enumerating(st0, s1, log1, turns, e) && e.more
      modifies this, romNo, owner.device, owner`selected
      ensures found.Ok? ==>
        Enumerating(st0, s1, log1, turns + [turn], e') &&
        e'.codes == e.codes + (if found.value then [code] else []) && e'.more == found.value
      ensures found == Ok(true) ==>
        |code| == 8 && device == DeviceFor(types, code) && |owner.device.replies| < |old(owner.device.replies)|
      ensures found == Ok(false) ==> lastDiscrepancy == 0 && lastFamilyDiscrepancy == 0 && !lastDeviceFlag
      ensures found.Err? ==> EnumerationEnds(channel, st0, s1, turns)
      ensures owner.device.disposed == old(owner.device.disposed)
    {
      e' := e;
      found, device, code, turn := NextDevice(first, types);
      if found.Ok? {
        EnumerateTurn(channel, st0, s1, log1, turns, e, turn, found.value, State(), owner.device.replies,
                      owner.device.log);
        e' := Enumeration(e.codes + (if found.value then [code] else []), State(), found.value, owner.device.replies,
                          e.frames + SearchFrames(true, channel, e.state, turn, romNo[..]));
      } else {
        EnumerateEnds(channel, st0, s1, turns);
      }
    }

    /** One turn of the enumeration loop: OneWireFirst on the first turn,
        OnoWireNext after, and the device for the ROM code found. */
    method NextDevice(first: bool, types: map<bv8, SensorKind>)
      returns (found: Result<bool>, device: OneWireDevice, ghost code: seq<bv8>, ghost turn: Turn)
      requires Valid()
      modifies this, romNo, owner.device, owner`selected
      ensures code == romNo[..]
      ensures found.Ok? ==>
        Searched(old(owner.IsCorrectChannelSelected(channel)),
          if first then Restart(old(romNo[..]), old(crc8)) else old(State()),
          old(owner.device.replies), old(owner.device.log), turn, found.value)
      ensures found.Err? ==>
        NoTurn(old(owner.IsCorrectChannelSelected(channel)),
          channel, if first then Restart(old(romNo[..]), old(crc8)) else old(State()), old(owner.device.replies))
      ensures found.Ok? && old(owner.IsCorrectChannelSelected(channel)) ==> owner.IsCorrectChannelSelected(channel)
      ensures found == Ok(true) ==>
        |code| == 8 && Crc(code) == 0 && code[0] != 0 && device == DeviceFor(types, code) &&
        |owner.device.replies| < |old(owner.device.replies)|
      ensures found == Ok(false) ==> lastDiscrepancy == 0 && lastFamilyDiscrepancy == 0 && !lastDeviceFlag
      ensures owner.device.disposed == old(owner.device.disposed)
    {
      ghost var presence, pairs;
      ghost var st := if first then Restart(romNo[..], crc8) else State();
      if first {
        found, presence, pairs := OneWireFirst();
      } else {
        found, presence, pairs := OnoWireNext();
      }
      turn := Turn(presence, pairs);
      device := Undefined(this, romNo);
      code := romNo[..];
      if found == Ok(true) {
        SearchFoundValid(st, presence, pairs);
        device := AddOneWireDevice(types);
      } else if found == Ok(false) {
        SearchNotFound(st, presence, pairs);
      }
    }

    /** The device AddOneWireDevice makes for a ROM code: a sensor of the
        registered kind holding its own copy of the code, or an undefined
        device holding ROM_NO itself. */
    function DeviceFor(types: map<bv8, SensorKind>, code: seq<bv8>): (d: OneWireDevice)
      requires |code| == 8
      ensures d.channel == this
      ensures d.TempSensor? <==> code[0] in types
      ensures d.TempSensor? ==> d.kind == types[code[0]] && d.address == code
      ensures d.Undefined? ==> d.romBuffer == romNo
    {
      if code[0] in types then TempSensor(types[code[0]], this, code) else Undefined(this, romNo)
    }

    /** The devices for a list of ROM codes, one each, in order. */
    function DevicesFor(types: map<bv8, SensorKind>, codes: seq<seq<bv8>>): (ds: seq<OneWireDevice>)
      requires forall i :: 0 <= i < |codes| ==> |codes[i]| == 8
      ensures |ds| == |codes|
      ensures forall i :: 0 <= i < |codes| ==> ds[i] == DeviceFor(types, codes[i])
      decreases |codes|
    {
      if |codes| == 0 then [] else DevicesFor(types, codes[..|codes| - 1]) + [DeviceFor(types, codes[|codes| - 1])]
    }

    /** AddOneWireDevice: the device for the ROM code just found. */
    method AddOneWireDevice(types: map<bv8, SensorKind>) returns (device: OneWireDevice)
      requires Valid()
      ensures device == DeviceFor(types, romNo[..])
    {
      if romNo[0] in types {
        var address := romNo[..];
        device := TempSensor(types[romNo[0]], this, address);
      } else {
        device := Undefined(this, romNo);
      }
    }

    /** OneWireFirst: clears the search state, then searches; the walk takes
        0 at every discrepancy. */
    method OneWireFirst() returns (r: Result<bool>, ghost presence: bool, ghost pairs: seq<Pair>)
      requires Valid()
      modifies this, romNo, owner.device, owner`selected
      ensures |pairs| <= 64
      ensures r.Ok? ==>
        Searched(old(owner.IsCorrectChannelSelected(channel)), Restart(old(romNo[..]), old(crc8)),
          old(owner.device.replies), old(owner.device.log), Turn(presence, pairs), r.value)
      ensures r.Ok? ==> owner.IsCorrectChannelSelected(channel)
      ensures r == Ok(true) ==> |owner.device.replies| < |old(owner.device.replies)|
      ensures r.Err? ==>
        NoTurn(old(owner.IsCorrectChannelSelected(channel)), channel, Restart(old(romNo[..]), old(crc8)),
          old(owner.device.replies))
      ensures r.Err? ==> lastDiscrepancy == 0 && !lastDeviceFlag
      ensures owner.device.disposed == old(owner.device.disposed)
    {
      lastDiscrepancy := 0;
      lastDeviceFlag := false;
      lastFamilyDiscrepancy := 0;
      r, presence, pairs := OneWireSearch();
    }

    /** OnoWireNext (so spelled): searches from the state the last call left. */
    method OnoWireNext() returns (r: Result<bool>, ghost presence: bool, ghost pairs: seq<Pair>)
      requires Valid()
      modifies this, romNo, owner.device, owner`selected
      ensures |pairs| <= 64
      ensures r.Ok? ==>
        Searched(old(owner.IsCorrectChannelSelected(channel)), old(State()), old(owner.device.replies),
          old(owner.device.log), Turn(presence, pairs), r.value)
      ensures r.Ok? && old(owner.IsCorrectChannelSelected(channel)) ==> owner.IsCorrectChannelSelected(channel)
      ensures old(lastDeviceFlag) ==>
        r == Ok(false) && unchanged(owner.device) && owner.selected == old(owner.selected)
      ensures r == Ok(true) ==> |owner.device.replies| < |old(owner.device.replies)|
      ensures r.Err? ==> NoTurn(old(owner.IsCorrectChannelSelected(channel)), channel, old(State()), old(owner.device.replies))
      ensures r.Err? ==> lastDiscrepancy == old(lastDiscrepancy) && lastDeviceFlag == old(lastDeviceFlag)
      ensures owner.device.disposed == old(owner.device.disposed)
    {
      r, presence, pairs := OneWireSearch();
    }

    /** OneWireVerify: saves the search state, searches from last
        discrepancy 64 (which repeats the saved ROM code wherever the bus
        allows), compares the code found with the saved one, and restores the
        state. The CRC accumulator is not restored, and an error skips the
        restore, as the exception does. */
    method OneWireVerify() returns (r: Result<bool>, ghost presence: bool, ghost pairs: seq<Pair>)
      requires Valid()
      modifies this, romNo, owner.device, owner`selected
      ensures |pairs| <= 64
      ensures r.Ok? ==> r.value == Verified(old(State()), presence, pairs)
      ensures r.Ok? ==>
        romNo[..] == old(romNo[..]) && lastDiscrepancy == old(lastDiscrepancy) &&
        lastDeviceFlag == old(lastDeviceFlag) && lastFamilyDiscrepancy == old(lastFamilyDiscrepancy) &&
        crc8 == Search(VerifyStart(old(State())), presence, pairs).1.crc8
      ensures r.Ok? ==>
        SearchReplies(old(owner.IsCorrectChannelSelected(channel)), channel, VerifyStart(old(State())),
          old(owner.device.replies), Turn(presence, pairs)) == Some(owner.device.replies) &&
        owner.device.log == old(owner.device.log) +
          SearchFrames(old(owner.IsCorrectChannelSelected(channel)), channel, VerifyStart(old(State())),
            Turn(presence, pairs), Search(VerifyStart(old(State())), presence, pairs).1.rom)
      ensures r.Err? ==>
        NoTurn(old(owner.IsCorrectChannelSelected(channel)), channel, VerifyStart(old(State())), old(owner.device.replies))
      ensures r.Err? ==> lastDiscrepancy == 64 && !lastDeviceFlag
      ensures owner.device.disposed == old(owner.device.disposed)
    {
      var romBackup := CopyRom();
      var ldBackup, ldfBackup, lfdBackup := lastDiscrepancy, lastDeviceFlag, lastFamilyDiscrepancy;
      lastDiscrepancy := 64;
      lastDeviceFlag := false;
      assert State() == VerifyStart(old(State()));
      var found;
      found, presence, pairs := OneWireSearch();
      if found.Err? {
        return Err(found.error), presence, pairs;
      }
      ghost var searched := Search(VerifyStart(old(State())), presence, pairs);
      assert searched == (found.value, State());
      var rslt := false;
      if found.value {
        rslt := SameRom(romBackup);
      }
      RestoreRom(romBackup);
      lastDiscrepancy := ldBackup;
      lastDeviceFlag := ldfBackup;
      lastFamilyDiscrepancy := lfdBackup;
      r := Ok(rslt);
    }

    /** The backup loop of OneWireVerify: a new array holding ROM_NO. */
    method CopyRom() returns (romBackup: array<bv8>)
      requires Valid()
      ensures fresh(romBackup) && romBackup[..] == romNo[..]
    {
      romBackup := new bv8[8];
      var i := 0;
      while i < 8
        invariant 0 <= i <= 8 && romBackup[..i] == romNo[..i]
      {
        romBackup[i] := romNo[i];
        i := i + 1;
      }
    }

    /** The comparison loop of OneWireVerify, which stops at the first byte
        that differs: whether ROM_NO holds the saved ROM code. */
    method SameRom(romBackup: array<bv8>) returns (same: bool)
      requires Valid() && romBackup.Length == 8
      ensures same <==> romBackup[..] == romNo[..]
    {
      same := true;
      var i := 0;
      while i < 8
        invariant 0 <= i <= 8 && same && romBackup[..i] == romNo[..i]
      {
        if romBackup[i] != romNo[i] {
          same := false;
          assert romBackup[..][i] != romNo[..][i];
          break;
        }
        i := i + 1;
      }
    }

    /** The restore loop of OneWireVerify: ROM_NO gets the saved code back. */
    method RestoreRom(romBackup: array<bv8>)
      requires Valid() && romBackup.Length == 8 && romBackup != romNo
      modifies romNo
      ensures romNo[..] == romBackup[..]
    {
      var i := 0;
      while i < 8
        invariant 0 <= i <= 8 && romNo[..i] == romBackup[..i]
      {
        romNo[i] := romBackup[i];
        i := i + 1;
      }
    }

    /** OneWireTargetSetup: the next OnoWireNext looks for the given family
        first. */
    method OneWireTargetSetup(familyCode: bv8)
      requires Valid()
      modifies romNo, this`lastDiscrepancy, this`lastFamilyDiscrepancy, this`lastDeviceFlag
      ensures State() == TargetStart(familyCode, old(crc8))
    {
      romNo[0] := familyCode;
      var i := 1;
      while i < 8
        invariant 1 <= i <= 8 && romNo[0] == familyCode
        invariant forall k :: 1 <= k < i ==> romNo[k] == 0
      {
        romNo[i] := 0;
        i := i + 1;
      }
      lastDiscrepancy := 64;
      lastFamilyDiscrepancy := 0;
      lastDeviceFlag := false;
      assert romNo[..] == [familyCode, 0, 0, 0, 0, 0, 0, 0];
    }

    /** OneWireFamilySkipSetup: the next OnoWireNext skips the rest of the
        current family. */
    method OneWireFamilySkipSetup()
      requires Valid()
      modifies this`lastDiscrepancy, this`lastFamilyDiscrepancy, this`lastDeviceFlag
      ensures State() == FamilySkip(old(State()))
    {
      lastDiscrepancy := lastFamilyDiscrepancy;
      lastFamilyDiscrepancy := 0;
      if lastDiscrepancy == 0 {
        lastDeviceFlag := true;
      }
    }

    /** The end of OneWireSearch: a pass that failed, or found a family code
        of 0, resets the search state. */
    method AcceptResult(searchResult: bool) returns (found: bool)
      requires Valid()
      modifies this`lastDiscrepancy, this`lastDeviceFlag, this`lastFamilyDiscrepancy
      ensures (found, State()) == Accept(searchResult, old(State()))
    {
      found := searchResult;
      if !searchResult || romNo[0] == 0 {
        lastDiscrepancy := 0;
        lastDeviceFlag := false;
        lastFamilyDiscrepancy := 0;
        found := false;
      }
    }

    /** The part of OneWireSearch after a reset that found devices: the
        search command, the bit loop, and the test for success (all 64 bits
        read and the CRC of the ROM code 0), which records last_zero as the
        last discrepancy and the last-device flag. */
    method SearchPass(ghost st0: SearchState) returns (r: Result<bool>, ghost pairs: seq<Pair>, ghost bits: seq<bool>)
      requires Valid() && st0.rom == romNo[..] && st0.lastDiscrepancy == lastDiscrepancy
      requires st0.lastFamilyDiscrepancy == lastFamilyDiscrepancy && crc8 == 0
      requires st0.lastDeviceFlag == lastDeviceFlag == false
      modifies romNo, this`lastDiscrepancy, this`lastDeviceFlag, this`lastFamilyDiscrepancy, this`crc8, owner.device
      ensures |pairs| <= 64 && |bits| == 64
      ensures r.Ok? ==> (r.value, State()) == PassResult(st0, pairs) && romNo[..] == Bytes(bits)
      ensures r.Ok? ==>
        owner.device.log == old(owner.device.log) + ([Frame.Write([ONEWIRE_WRITE_BYTE, SEARCH_ROM])] + BitFrames(pairs, bits))
      ensures r.Ok? ==>
        PassRead(pairs) && Polled(old(owner.device.replies)) &&
        PairsReplies(AfterPoll(old(owner.device.replies)), pairs) == Some(owner.device.replies)
      ensures r.Err? ==> !Polled(old(owner.device.replies)) || NoPass(AfterPoll(old(owner.device.replies)))
      ensures |owner.device.replies| <= |old(owner.device.replies)|
      ensures r.Err? ==> lastDiscrepancy == old(lastDiscrepancy) && lastDeviceFlag == old(lastDeviceFlag)
      ensures owner.device.disposed == old(owner.device.disposed)
    {
      ghost var log0 := owner.device.log;
      pairs, bits := [], Bits(romNo[..]);
      var written := OneWireWriteByte(SEARCH_ROM);
      if written.Fail? {
        return Err(written.error), pairs, bits;
      }
      var walked, idBitNumber, lastZero;
      walked, idBitNumber, lastZero, pairs, bits := SearchRomBits(st0);
      if walked.Fail? {
        return Err(walked.error), pairs, bits;
      }
      AppendAssoc(log0, [Frame.Write([ONEWIRE_WRITE_BYTE, SEARCH_ROM])], BitFrames(pairs, bits));
      ghost var w := Steps(Bits(st0.rom), st0.lastDiscrepancy, st0.lastFamilyDiscrepancy, Answers(pairs));
      assert w == Walk(bits, lastZero, lastFamilyDiscrepancy, crc8);
      assert Bytes(w.bits) == romNo[..];
      var searchResult := false;
      if !(idBitNumber < 65 || crc8 != 0) {
        lastDiscrepancy := lastZero;
        if lastDiscrepancy == 0 {
          lastDeviceFlag := true;
        }
        searchResult := true;
      }
      r := Ok(searchResult);
    }

    /** The bit loop of OneWireSearch: for each of the 64 positions, read the
        bit and its complement, stop at (1, 1), otherwise take a direction and
        write it back; every completed byte goes into the CRC. On success the
        ROM buffer holds the bits of the walk Steps makes over the pairs
        answered, the working values are that walk's, and the frames written
        are those of BitFrames. */
    method SearchRomBits(ghost st0: SearchState)
      returns (r: Outcome, idBitNumber: int, lastZero: int, ghost pairs: seq<Pair>, ghost bits: seq<bool>)
      requires Valid() && st0.rom == romNo[..] && st0.lastDiscrepancy == lastDiscrepancy
      requires st0.lastFamilyDiscrepancy == lastFamilyDiscrepancy && crc8 == 0
      modifies romNo, this`lastFamilyDiscrepancy, this`crc8, owner.device
      ensures |pairs| <= 64 && |bits| == 64
      ensures r.Pass? ==>
        idBitNumber == |Answers(pairs)| + 1 && romNo[..] == Bytes(bits) &&
        Steps(Bits(st0.rom), st0.lastDiscrepancy, st0.lastFamilyDiscrepancy, Answers(pairs)) ==
          Walk(bits, lastZero, lastFamilyDiscrepancy, crc8)
      ensures r.Pass? ==> owner.device.log == old(owner.device.log) + BitFrames(pairs, bits)
      ensures r.Pass? ==> PassRead(pairs) && PairsReplies(old(owner.device.replies), pairs) == Some(owner.device.replies)
      ensures r.Fail? ==> NoPass(old(owner.device.replies))
      ensures |owner.device.replies| <= |old(owner.device.replies)|
      ensures owner.device.disposed == old(owner.device.disposed)
    {
      idBitNumber := 1;
      lastZero := 0;
      var romByteNumber := 0;
      var romByteMask: bv8 := 1;
      pairs := [];
      ghost var logStart := owner.device.log;
      ghost var replies0 := owner.device.replies;
      bits := Bits(romNo[..]);
      BytesOfBits(romNo[..]);
      while romByteNumber < 8
        invariant BitLoop(st0, logStart, replies0, pairs, bits, idBitNumber, romByteNumber, romByteMask, lastZero)
        invariant |owner.device.replies| <= |replies0|
        invariant owner.device.disposed == old(owner.device.disposed)
        decreases 64 - |pairs|
      {
        var answer;
        ghost var bits';
        answer, idBitNumber, romByteNumber, romByteMask, lastZero, bits' :=
          BitLoopStep(st0, logStart, replies0, pairs, bits, idBitNumber, romByteNumber, romByteMask, lastZero);
        if answer.Err? {
          return Fail(answer.error), idBitNumber, lastZero, pairs, bits;
        }
        if NoDevices(answer.value) {
          return Pass, idBitNumber, lastZero, pairs + [answer.value], bits;
        }
        pairs, bits := pairs + [answer.value], bits';
      }
      AnswersAll(pairs);
      PassReadAll(pairs);
      r := Pass;
    }

    /** The working values of the bit loop after the answered positions
        done: the walk, the frames and the replies consumed so far. */
    ghost predicate BitLoop(st0: SearchState, logStart: seq<Frame>, replies0: seq<bv8>, done: seq<Pair>,
                            bits: seq<bool>, idBitNumber: int, romByteNumber: int, romByteMask: bv8, lastZero: int)
      reads this, romNo, owner.device
    {
      Valid() && |st0.rom| == 8 && st0.lastDiscrepancy == lastDiscrepancy && Answered(done) &&
      idBitNumber == |done| + 1 && romByteNumber == |done| / 8 && romByteMask == Mask(|done| % 8) &&
      |bits| == 64 && romNo[..] == Bytes(bits) &&
      Steps(Bits(st0.rom), st0.lastDiscrepancy, st0.lastFamilyDiscrepancy, done) ==
        Walk(bits, lastZero, lastFamilyDiscrepancy, crc8) &&
      owner.device.log == logStart + BitFrames(done, bits) &&
      PairsReplies(replies0, done) == Some(owner.device.replies)
    }

    /** One turn of the bit loop: an answered position keeps BitLoop one
        position further on; (1, 1) ends the pass read, with the walk where
        it was. */
    method BitLoopStep(ghost st0: SearchState, ghost logStart: seq<Frame>, ghost replies0: seq<bv8>,
                       ghost done: seq<Pair>, ghost bits: seq<bool>,
                       idBitNumber: int, romByteNumber: int, romByteMask: bv8, lastZero: int)
      returns (r: Result<Pair>, idBitNumber': int, romByteNumber': int, romByteMask': bv8, lastZero': int,
               ghost bits': seq<bool>)
      requires BitLoop(st0, logStart, replies0, done, bits, idBitNumber, romByteNumber, romByteMask, lastZero)
      requires |done| < 64
      modifies romNo, this`lastFamilyDiscrepancy, this`crc8, owner.device
      ensures r.Ok? && !NoDevices(r.value) ==>
        BitLoop(st0, logStart, replies0, done + [r.value], bits', idBitNumber', romByteNumber', romByteMask', lastZero')
      ensures r.Ok? && NoDevices(r.value) ==>
        var pairs := done + [r.value];
        PassRead(pairs) && Answers(pairs) == done && idBitNumber' == |done| + 1 && romNo[..] == Bytes(bits) &&
        Steps(Bits(st0.rom), st0.lastDiscrepancy, st0.lastFamilyDiscrepancy, done) ==
          Walk(bits, lastZero', lastFamilyDiscrepancy, crc8) &&
        owner.device.log == logStart + BitFrames(pairs, bits) &&
        PairsReplies(replies0, pairs) == Some(owner.device.replies)
      ensures r.Err? ==> NoPass(replies0)
      ensures |owner.device.replies| <= |old(owner.device.replies)|
      ensures owner.device.disposed == old(owner.device.disposed)
    {
      ghost var before, sent := owner.device.replies, owner.device.log;
      ghost var frames;
      r, idBitNumber', romByteNumber', romByteMask', lastZero', bits', frames :=
        SearchStep(st0, done, bits, idBitNumber, romByteNumber, romByteMask, lastZero);
      if r.Ok? {
        PairsRepliesSnoc(replies0, done, r.value, before, owner.device.replies);
        AppendAssoc(logStart, BitFrames(done, bits), frames);
        if NoDevices(r.value) {
          AnswersAbort(done, r.value);
          PassReadAbort(done, r.value);
        }
      } else {
        PassStuck(replies0, done, before);
      }
    }

    /** One iteration of the OneWireSearch bit loop: read the bit pair and,
        unless no device answered, take and write back the direction, then
        move to the next bit. The walk and the frames advance by one
        position. */
    method SearchStep(ghost st0: SearchState, ghost done: seq<Pair>, ghost bits: seq<bool>,
                      idBitNumber: int, romByteNumber: int, romByteMask: bv8, lastZero: int)
      returns (r: Result<Pair>, idBitNumber': int, romByteNumber': int, romByteMask': bv8, lastZero': int,
               ghost bits': seq<bool>, ghost frames: seq<Frame>)
      requires Valid() && |st0.rom| == 8 && |bits| == 64 && romNo[..] == Bytes(bits)
      requires |done| < 64 && st0.lastDiscrepancy == lastDiscrepancy
      requires idBitNumber == |done| + 1 && romByteNumber == |done| / 8 && romByteMask == Mask(|done| % 8)
      requires Steps(Bits(st0.rom), st0.lastDiscrepancy, st0.lastFamilyDiscrepancy, done) ==
        Walk(bits, lastZero, lastFamilyDiscrepancy, crc8)
      modifies romNo, this`lastFamilyDiscrepancy, this`crc8, owner.device
      ensures r.Ok? ==> owner.device.log == old(owner.device.log) + frames
      ensures r.Ok? ==> PositionReplies(old(owner.device.replies)) == Some((r.value, owner.device.replies))
      ensures r.Err? ==> PositionReplies(old(owner.device.replies)).None?
      ensures r.Ok? ==>
        |bits'| == 64 && romNo[..] == Bytes(bits') &&
        BitFrames(done + [r.value], bits') == BitFrames(done, bits) + frames
      ensures r.Ok? && NoDevices(r.value) ==>
        bits' == bits && idBitNumber' == idBitNumber && lastZero' == lastZero &&
        lastFamilyDiscrepancy == old(lastFamilyDiscrepancy) && crc8 == old(crc8)
      ensures r.Ok? && !NoDevices(r.value) ==>
        idBitNumber' == idBitNumber + 1 && romByteNumber' == idBitNumber / 8 &&
        romByteMask' == Mask(idBitNumber % 8) &&
        Steps(Bits(st0.rom), st0.lastDiscrepancy, st0.lastFamilyDiscrepancy, done + [r.value]) ==
          Walk(bits', lastZero', lastFamilyDiscrepancy, crc8)
      ensures |owner.device.replies| <= |old(owner.device.replies)|
      ensures owner.device.disposed == old(owner.device.disposed)
    {
      ghost var w := Walk(bits, lastZero, lastFamilyDiscrepancy, crc8);
      idBitNumber', romByteNumber', romByteMask', bits', frames := idBitNumber, romByteNumber, romByteMask, bits, [];
      var searchDirection;
      r, searchDirection, lastZero' := SearchPosition(idBitNumber, romByteNumber, romByteMask, lastZero);
      if r.Ok? {
        var p := r.value;
        frames := PositionFrames(p, searchDirection);
        if NoDevices(p) {
          BitFramesAbort(done, p, bits, searchDirection);
        } else {
          idBitNumber', romByteNumber', romByteMask', bits' :=
            AdvanceSearch(st0, done, w, p, searchDirection, idBitNumber, romByteNumber, romByteMask, lastZero');
        }
      }
    }

    /** The answered case of a loop iteration, after the direction has been
        written to ROM_NO: move to the next bit; the walk and the frames
        advance by one position. */
    method AdvanceSearch(ghost st0: SearchState, ghost done: seq<Pair>, ghost w: Walk, ghost p: Pair,
                         ghost searchDirection: bool, idBitNumber: int, romByteNumber: int, romByteMask: bv8,
                         ghost lastZero': int)
      returns (idBitNumber': int, romByteNumber': int, romByteMask': bv8, ghost bits': seq<bool>)
      requires Valid() && |st0.rom| == 8 && |w.bits| == 64 && |done| < 64
      requires idBitNumber == |done| + 1 && romByteNumber == |done| / 8 && romByteMask == Mask(|done| % 8)
      requires Steps(Bits(st0.rom), st0.lastDiscrepancy, st0.lastFamilyDiscrepancy, done) == w
      requires w.crc == crc8 && !NoDevices(p)
      requires searchDirection == Direction(p, idBitNumber, st0.lastDiscrepancy, RomBit(Bytes(w.bits), idBitNumber - 1))
      requires lastZero' == (if ZeroChoice(p, searchDirection) then idBitNumber else w.lastZero)
      requires lastFamilyDiscrepancy ==
        (if ZeroChoice(p, searchDirection) && idBitNumber < 9 then idBitNumber else w.lfd)
      requires romNo[..] == SetRomBit(Bytes(w.bits), idBitNumber - 1, searchDirection)
      modifies this`crc8
      ensures bits' == w.bits[|done| := searchDirection] && romNo[..] == Bytes(bits')
      ensures BitFrames(done + [p], bits') == BitFrames(done, w.bits) + PositionFrames(p, searchDirection)
      ensures idBitNumber' == idBitNumber + 1 && romByteNumber' == idBitNumber / 8
      ensures romByteMask' == Mask(idBitNumber % 8)
      ensures Steps(Bits(st0.rom), st0.lastDiscrepancy, st0.lastFamilyDiscrepancy, done + [p]) ==
        Walk(bits', lastZero', lastFamilyDiscrepancy, crc8)
    {
      RomBitOfBytes(w.bits, |done|);
      SetRomBitOfBytes(w.bits, |done|, searchDirection);
      BitFramesSnoc(done, p, w.bits, searchDirection);
      bits' := w.bits[|done| := searchDirection];
      idBitNumber', romByteNumber', romByteMask' := NextSearchBit(idBitNumber, romByteNumber, romByteMask, bits');
      StepsSnoc(Bits(st0.rom), st0.lastDiscrepancy, st0.lastFamilyDiscrepancy, done, p);
      AdvanceFields(w, p, idBitNumber, st0.lastDiscrepancy, searchDirection,
                    Walk(bits', lastZero', lastFamilyDiscrepancy, crc8));
    }

    /** The end of the OneWireSearch loop body: move to the next bit, and
        when a byte of ROM_NO is complete fold it into the CRC and move to
        the next byte. */
    method NextSearchBit(idBitNumber: int, romByteNumber: int, romByteMask: bv8, ghost bits: seq<bool>)
      returns (idBitNumber': int, romByteNumber': int, romByteMask': bv8)
      requires Valid() && |bits| == 64 && romNo[..] == Bytes(bits)
      requires 1 <= idBitNumber <= 64 && romByteNumber == (idBitNumber - 1) / 8
      requires romByteMask == Mask((idBitNumber - 1) % 8)
      modifies this`crc8
      ensures idBitNumber' == idBitNumber + 1 && romByteNumber' == idBitNumber / 8
      ensures romByteMask' == Mask(idBitNumber % 8)
      ensures crc8 == CrcAfter(old(crc8), bits, idBitNumber)
    {
      idBitNumber' := idBitNumber + 1;
      romByteNumber' := romByteNumber;
      MaskShift((idBitNumber - 1) % 8);
      NextPosition(idBitNumber - 1);
      romByteMask' := romByteMask << 1;
      if romByteMask' == 0 {
        assert romNo[..][romByteNumber] == Bytes(bits)[romByteNumber];
        var _ := Docrc8(romNo[romByteNumber]);
        romByteNumber' := romByteNumber + 1;
        romByteMask' := 1;
      }
    }

    /** One bit position of the OneWireSearch loop: read the bit and its
        complement; unless both are 1 (no device answered), take the direction
        and write it back to the bus. */
    method SearchPosition(idBitNumber: int, romByteNumber: int, romByteMask: bv8, lastZero: int)
      returns (r: Result<Pair>, searchDirection: bool, lastZero': int)
      requires Valid() && 1 <= idBitNumber <= 64 && romByteNumber == (idBitNumber - 1) / 8
      requires romByteMask == Mask((idBitNumber - 1) % 8)
      modifies romNo, this`lastFamilyDiscrepancy, owner.device
      ensures r.Ok? && !NoDevices(r.value) ==>
        var p := r.value;
        searchDirection == Direction(p, idBitNumber, lastDiscrepancy, RomBit(old(romNo[..]), idBitNumber - 1)) &&
        romNo[..] == SetRomBit(old(romNo[..]), idBitNumber - 1, searchDirection) &&
        lastZero' == (if ZeroChoice(p, searchDirection) then idBitNumber else lastZero) &&
        lastFamilyDiscrepancy ==
          (if ZeroChoice(p, searchDirection) && idBitNumber < 9 then idBitNumber else old(lastFamilyDiscrepancy))
      ensures r.Ok? && NoDevices(r.value) ==>
        romNo[..] == old(romNo[..]) && lastZero' == lastZero && lastFamilyDiscrepancy == old(lastFamilyDiscrepancy)
      ensures r.Ok? ==> owner.device.log == old(owner.device.log) + PositionFrames(r.value, searchDirection)
      ensures r.Ok? ==> PositionReplies(old(owner.device.replies)) == Some((r.value, owner.device.replies))
      ensures r.Err? ==> r == Err(I2cIoError) && PositionReplies(old(owner.device.replies)) == None
      ensures |owner.device.replies| <= |old(owner.device.replies)|
      ensures owner.device.disposed == old(owner.device.disposed)
    {
      searchDirection, lastZero' := false, lastZero;
      var bitRead := OneWireReadBit();
      if bitRead.Err? {
        return Err(bitRead.error), searchDirection, lastZero';
      }
      var cmpRead := OneWireReadBit();
      if cmpRead.Err? {
        return Err(cmpRead.error), searchDirection, lastZero';
      }
      var idBit, cmpIdBit := bitRead.value, cmpRead.value;
      assert owner.device.log == old(owner.device.log) + [ReadSlot(), ReadSlot()];
      r := Ok(Pair(idBit, cmpIdBit));
      if idBit && cmpIdBit {
        return;
      }
      searchDirection, lastZero' := TakeDirection(idBit, cmpIdBit, idBitNumber, romByteNumber, romByteMask, lastZero);
      var bitWritten := OneWireWriteBit(searchDirection);
      if bitWritten.Fail? {
        return Err(bitWritten.error), searchDirection, lastZero';
      }
      AppendAssoc(old(owner.device.log), [ReadSlot(), ReadSlot()],
        [Frame.Write([ONEWIRE_SINGLE_BIT, SingleBitByte(searchDirection)])]);
    }

    /** The branch taken at one bit position of OneWireSearch (the part of the
        loop body between reading the bit pair and writing the direction):
        pick the direction, remember a zero taken at a discrepancy in
        last_zero (and in the family discrepancy within the family byte), and
        store the direction in the ROM buffer. */
    method TakeDirection(idBit: bool, cmpIdBit: bool, idBitNumber: int, romByteNumber: int, romByteMask: bv8, lastZero: int)
      returns (searchDirection: bool, lastZero': int)
      requires Valid() && !(idBit && cmpIdBit)
      requires 1 <= idBitNumber <= 64 && romByteNumber == (idBitNumber - 1) / 8
      requires romByteMask == Mask((idBitNumber - 1) % 8)
      modifies romNo, this`lastFamilyDiscrepancy
      ensures var p := Pair(idBit, cmpIdBit);
        searchDirection == Direction(p, idBitNumber, lastDiscrepancy, RomBit(old(romNo[..]), idBitNumber - 1)) &&
        romNo[..] == SetRomBit(old(romNo[..]), idBitNumber - 1, searchDirection) &&
        lastZero' == (if ZeroChoice(p, searchDirection) then idBitNumber else lastZero) &&
        lastFamilyDiscrepancy ==
          (if ZeroChoice(p, searchDirection) && idBitNumber < 9 then idBitNumber else old(lastFamilyDiscrepancy))
    {
      ghost var rom := romNo[..];
      RomBitAt(rom, idBitNumber - 1, romByteNumber, romByteMask);
      searchDirection, lastZero' := ChooseDirection(idBit, cmpIdBit, idBitNumber, romByteNumber, romByteMask, lastZero);
      StoreBit(romByteNumber, romByteMask, searchDirection);
      SetRomBitAt(rom, idBitNumber - 1, searchDirection, romByteNumber, romByteMask);
    }

    /** The choice of direction, read from the stored byte and mask. */
    method ChooseDirection(idBit: bool, cmpIdBit: bool, idBitNumber: int, romByteNumber: int, romByteMask: bv8, lastZero: int)
      returns (searchDirection: bool, lastZero': int)
      requires Valid() && 0 <= romByteNumber < 8
      modifies this`lastFamilyDiscrepancy
      ensures var p := Pair(idBit, cmpIdBit);
        searchDirection == Direction(p, idBitNumber, lastDiscrepancy, romNo[romByteNumber] & romByteMask > 0) &&
        lastZero' == (if ZeroChoice(p, searchDirection) then idBitNumber else lastZero) &&
        lastFamilyDiscrepancy ==
          (if ZeroChoice(p, searchDirection) && idBitNumber < 9 then idBitNumber else old(lastFamilyDiscrepancy))
    {
      lastZero' := lastZero;
      if idBit != cmpIdBit {
        searchDirection := idBit;
      } else {
        if idBitNumber < lastDiscrepancy {
          searchDirection := (romNo[romByteNumber] & romByteMask) > 0;
        } else {
          searchDirection := idBitNumber == lastDiscrepancy;
        }
        if !searchDirection {
          lastZero' := idBitNumber;
          if lastZero' < 9 {
            lastFamilyDiscrepancy := lastZero';
          }
        }
      }
    }

    /** Sets or clears the bit the mask selects in one byte of ROM_NO. */
    method StoreBit(romByteNumber: int, romByteMask: bv8, v: bool)
      requires Valid() && 0 <= romByteNumber < 8
      modifies romNo
      ensures romNo[..] == old(romNo[..])[romByteNumber := WithBit(old(romNo[romByteNumber]), romByteMask, v)]
    {
      if v {
        romNo[romByteNumber] := romNo[romByteNumber] | romByteMask;
      } else {
        var result := !romByteMask;
        romNo[romByteNumber] := romNo[romByteNumber] & result;
      }
    }

    /** docrc8: folds one byte into the running CRC by table lookup, which
        is one step of the CRC polynomial division. */
    method Docrc8(value: bv8) returns (r: bv8)
      modifies this`crc8
      ensures crc8 == Step(old(crc8), value) && r == crc8
    {
      TableIsBitwise(crc8, value);
      crc8 := TableStep(crc8, value);
      return crc8;
    }
  }

  /** A device as the enumeration produces it: a sensor carries a valid ROM
      code whose family the table maps to the sensor's kind. */
  predicate SoundDevice(d: OneWireDevice, types: map<bv8, SensorKind>)
  {
    d.TempSensor? ==>
      |d.address| == 8 && Crc(d.address) == 0 && d.address[0] != 0 &&
      d.address[0] in types && d.kind == types[d.address[0]]
  }

  /** The devices one channel produced, all on that channel and sound. */
  predicate ChannelDevices(devices: seq<OneWireDevice>, ch: Ds2482Channel, types: map<bv8, SensorKind>)
  {
    forall j :: 0 <= j < |devices| ==> devices[j].channel == ch && SoundDevice(devices[j], types)
  }

  /** The devices GetConnectedOneWireDevices returns are sound and on its
      channel. */
  lemma ProducedDevices(devices: seq<OneWireDevice>, codes: seq<seq<bv8>>, ch: Ds2482Channel, types: map<bv8, SensorKind>)
    requires |codes| == |devices|
    requires forall i :: 0 <= i < |codes| ==>
      |codes[i]| == 8 && Crc(codes[i]) == 0 && codes[i][0] != 0 && devices[i] == ch.DeviceFor(types, codes[i])
    ensures ChannelDevices(devices, ch, types)
  {
  }

  /** The family-code table of DS2482 (its static dictionary of device
      types), shared by every bridge. */
  class DeviceTypeRegistry {
    var types: map<bv8, SensorKind>

    /** The static constructor: DS18S20 under 0x10, DS18B20 under 0x28. */
    constructor ()
      ensures types == map[0x10 := DS18S20, 0x28 := DS18B20]
    {
      types := map[];
      new;
      var added := AddDeviceType(0x10, DS18S20);
      added := AddDeviceType(0x28, DS18B20);
    }

    /** AddDeviceType: Dictionary.Add, which refuses a family code that is
        already registered and leaves the table as it was. */
    method AddDeviceType(familyCode: bv8, kind: SensorKind) returns (r: Outcome)
      modifies this
      ensures familyCode in old(types) ==> r == Fail(DuplicateKey) && types == old(types)
      ensures familyCode !in old(types) ==> r == Pass && types == old(types)[familyCode := kind]
    {
      if familyCode in types {
        return Fail(DuplicateKey);
      }
      types := types[familyCode := kind];
      return Pass;
    }
  }

  class Ds2482 {
    const device: I2cDevice
    const deviceTypes: DeviceTypeRegistry
    const variant: BridgeVariant
    const disposeI2cDevice: bool
    var channels: seq<Ds2482Channel>
    var oneWireDevices: seq<OneWireDevice>
    var initialized: bool
    /** The channel last selected (DS2482-800 only; the DS2482-100 has one). */
    var selected: Option<OneWireChannel>

    /** The bridge's channels, each bound to this bridge, on its own ROM
        buffer, in the order the variant lists them. */
    ghost predicate Valid()
      reads this`channels
    {
      |channels| == |ChannelList(variant)| &&
      (forall i :: 0 <= i < |channels| ==>
        channels[i].owner == this && channels[i].channel == ChannelList(variant)[i] && channels[i].Valid()) &&
      (forall i, j :: 0 <= i < j < |channels| ==> channels[i].romNo != channels[j].romNo)
    }

    /** The channels and their ROM buffers: what enumerating the devices
        may change besides the bridge and its I2C device. */
    ghost function Repr(): (r: set<object>)
      reads this`channels
      ensures this !in r
    {
      (set c | c in channels :: c as object) + (set c | c in channels :: c.romNo as object)
    }

    /** DS2482(i2cDevice, disposeI2cDevice) followed by the variant's own
        constructor, which adds its channels. A null device is refused by
        the factory before this runs. */
    constructor (i2cDevice: I2cDevice, deviceTypes: DeviceTypeRegistry, disposeI2cDevice: bool, variant: BridgeVariant)
      ensures device == i2cDevice && this.deviceTypes == deviceTypes
      ensures this.disposeI2cDevice == disposeI2cDevice && this.variant == variant
      ensures Valid()
      ensures oneWireDevices == [] && !initialized && selected == None
      ensures forall i :: 0 <= i < |channels| ==>
        fresh(channels[i]) && fresh(channels[i].romNo) &&
        channels[i].State() == SearchState([0, 0, 0, 0, 0, 0, 0, 0], 0, 0, false, 0)
    {
      device := i2cDevice;
      this.deviceTypes := deviceTypes;
      this.disposeI2cDevice := disposeI2cDevice;
      this.variant := variant;
      oneWireDevices := [];
      initialized := false;
      selected := None;
      new;
      var list := ChannelList(variant);
      channels := [];
      var i := 0;
      while i < |list|
        invariant 0 <= i <= |list| && |channels| == i
        invariant forall k :: 0 <= k < i ==>
          channels[k].owner == this && channels[k].channel == list[k] && channels[k].Valid() &&
          fresh(channels[k]) && fresh(channels[k].romNo) &&
          channels[k].State() == SearchState([0, 0, 0, 0, 0, 0, 0, 0], 0, 0, false, 0)
        invariant forall k, m :: 0 <= k < m < i ==> channels[k].romNo != channels[m].romNo
        invariant oneWireDevices == [] && !initialized && selected == None
      {
        var c := new Ds2482Channel(this, list[i]);
        channels := channels + [c];
        i := i + 1;
      }
    }

    /** IsCorrectChannelSelected: always true on the single-channel bridge. */
    predicate IsCorrectChannelSelected(ch: OneWireChannel)
      reads this`selected
      ensures variant == Ds2482_100 ==> IsCorrectChannelSelected(ch)
      ensures variant == Ds2482_800 ==> (IsCorrectChannelSelected(ch) <==> selected == Some(ch))
    {
      variant == Ds2482_100 || selected == Some(ch)
    }

    /** The selection SetSelectedChannel records: none on the DS2482-100. */
    function SelectedAfter(before: Option<OneWireChannel>, ch: OneWireChannel): Option<OneWireChannel>
    {
      if variant == Ds2482_100 then before else Some(ch)
    }

    method SetSelectedChannel(ch: OneWireChannel)
      modifies this`selected
      ensures selected == SelectedAfter(old(selected), ch)
      ensures IsCorrectChannelSelected(ch)
    {
      if variant == Ds2482_800 {
        selected := Some(ch);
      }
    }

    /** Before channel n of the foreach loop of InitializeDevices: the
        channels from n on still have their search states from starts, and
        the channel selected is the one the run before used (before any run,
        the first channel is selected exactly when sel0 says so). */
    ghost predicate Ready(starts: seq<SearchState>, sel0: bool, n: nat)
      reads this`channels, this`selected, channels, set c | c in channels :: c.romNo
    {
      (forall k :: n <= k < |channels| && k < |starts| ==> channels[k].State() == starts[k]) &&
      (n == 0 ==> IsCorrectChannelSelected(IO0) == sel0) &&
      (0 < n <= |channels| ==> IsCorrectChannelSelected(channels[n - 1].channel))
    }

    /** The foreach loop of InitializeDevices after the channels whose runs
        fill holds, started from channel search states starts, selection
        sel0 of the first channel, reply stream s0, frame log log0 and cache
        base: the channels made those runs, reading turns, and the cache
        gained their devices. The outcome r is a failure exactly when the
        last run did not complete; while none failed, the last channel run is
        the one selected and the channels still to come keep their search
        states. */
    ghost predicate Filling(starts: seq<SearchState>, sel0: bool, s0: seq<bv8>, log0: seq<Frame>,
                            base: seq<OneWireDevice>, turns: seq<seq<Turn>>, fill: seq<ChannelRun>, r: Outcome)
      reads this`channels, this`oneWireDevices, this`selected, device, deviceTypes, channels,
            set c | c in channels :: c.romNo
    {
      match r
      case Pass =>
        Valid() && Ready(starts, sel0, |fill|) &&
        Cached(channels, deviceTypes.types, ChannelList(variant), starts, sel0, s0, log0, base, turns, fill, true,
               device.replies, device.log, oneWireDevices)
      case Fail(_) =>
        Valid() &&
        Cached(channels, deviceTypes.types, ChannelList(variant), starts, sel0, s0, log0, base, turns, fill, false,
               device.replies, device.log, oneWireDevices)
    }

    /** InitializeDevices: on the first call, appends the devices of every
        channel in channel order, then records that the cache is complete.
        An error stops the enumeration: the devices already produced stay in
        the cache, which is not marked complete. Later calls do nothing. */
    method InitializeDevices() returns (r: Outcome, ghost turns: seq<seq<Turn>>, ghost fill: seq<ChannelRun>)
      requires Valid()
      modifies this`oneWireDevices, this`initialized, this`selected, device, Repr()
      ensures Valid()
      ensures old(initialized) ==>
        r == Pass && fill == [] && initialized && oneWireDevices == old(oneWireDevices) && unchanged(device)
      ensures !old(initialized) ==>
        Filling(old(StatesOf(channels)), old(IsCorrectChannelSelected(IO0)), old(device.replies), old(device.log),
          old(oneWireDevices), turns, fill, r) &&
        RunsEnd(ChannelList(variant), old(StatesOf(channels)), old(IsCorrectChannelSelected(IO0)), old(device.replies),
          turns, fill) &&
        (initialized <==> r.Pass?) && (r.Pass? ==> |fill| == |channels|)
      ensures device.disposed == old(device.disposed)
    {
      turns, fill := [], [];
      r := Pass;
      if !initialized {
        ghost var starts, sel0, s0, log0 := StatesOf(channels), IsCorrectChannelSelected(IO0), device.replies, device.log;
        FillingStart();
        r, turns, fill := EnumerateAll(starts, sel0, s0, log0, oneWireDevices);
      }
    }

    /** The first call of InitializeDevices, from channel search states
        starts, selection sel0 of the first channel, reply stream s0, frame
        log log0 and cache base: the foreach loop over the channels, then
        the cache recorded as complete if no channel failed. */
    method EnumerateAll(ghost starts: seq<SearchState>, ghost sel0: bool, ghost s0: seq<bv8>,
                        ghost log0: seq<Frame>, ghost base: seq<OneWireDevice>)
      returns (r: Outcome, ghost turns: seq<seq<Turn>>, ghost fill: seq<ChannelRun>)
      requires !initialized && Filling(starts, sel0, s0, log0, base, [], [], Pass)
      modifies this`oneWireDevices, this`initialized, this`selected, device, Repr()
      ensures Filling(starts, sel0, s0, log0, base, turns, fill, r)
      ensures RunsEnd(ChannelList(variant), starts, sel0, s0, turns, fill)
      ensures (initialized <==> r.Pass?) && (r.Pass? ==> |fill| == |channels|)
      ensures device.disposed == old(device.disposed)
    {
      r, turns, fill := FillChannels(0, starts, sel0, s0, log0, base, [], []);
      if r.Pass? {
        MarkInitialized(starts, sel0, s0, log0, base, turns, fill);
      }
    }

    /** The last statement of InitializeDevices: the cache is recorded as
        complete, and nothing the enumeration left changes. */
    method MarkInitialized(ghost starts: seq<SearchState>, ghost sel0: bool, ghost s0: seq<bv8>,
                           ghost log0: seq<Frame>, ghost base: seq<OneWireDevice>, ghost turns: seq<seq<Turn>>,
                           ghost fill: seq<ChannelRun>)
      requires Filling(starts, sel0, s0, log0, base, turns, fill, Pass)
      modifies this`initialized
      ensures initialized
      ensures Filling(starts, sel0, s0, log0, base, turns, fill, Pass)
    {
      initialized := true;
    }

    /** Before the foreach loop of InitializeDevices, nothing is filled:
        the channels have their current search states and the cache and the
        device are as they are. */
    lemma FillingStart()
      requires Valid()
      ensures Filling(StatesOf(channels), IsCorrectChannelSelected(IO0), device.replies, device.log, oneWireDevices,
                      [], [], Pass)
    {
      assert oneWireDevices + [] == oneWireDevices && device.log + [] == device.log;
    }

    /** The foreach loop of InitializeDevices from channel i on, until one
        of the channels fails. */
    method FillChannels(i: nat, ghost starts: seq<SearchState>, ghost sel0: bool, ghost s0: seq<bv8>,
                        ghost log0: seq<Frame>, ghost base: seq<OneWireDevice>, ghost turns: seq<seq<Turn>>,
                        ghost fill: seq<ChannelRun>)
      returns (r: Outcome, ghost turns': seq<seq<Turn>>, ghost fill': seq<ChannelRun>)
      requires i == |fill| <= |channels|
      requires Filling(starts, sel0, s0, log0, base, turns, fill, Pass)
      requires RunsEnd(ChannelList(variant), starts, sel0, s0, turns, fill)
      modifies this`oneWireDevices, this`selected, device, Repr()
      ensures Filling(starts, sel0, s0, log0, base, turns', fill', r)
      ensures RunsEnd(ChannelList(variant), starts, sel0, s0, turns', fill')
      ensures r.Pass? ==> |fill'| == |channels|
      ensures device.disposed == old(device.disposed)
      decreases |channels| - i
    {
      if i == |channels| {
        return Pass, turns, fill;
      }
      assert channels[i] in channels;
      r, turns', fill' := AddChannelDevices(i, starts, sel0, s0, log0, base, turns, fill);
      if r.Pass? {
        r, turns', fill' := FillChannels(i + 1, starts, sel0, s0, log0, base, turns', fill');
      }
    }

    /** One pass of the foreach loop of InitializeDevices: the devices of
        channel i, appended to the cache as they are produced. */
    method AddChannelDevices(i: nat, ghost starts: seq<SearchState>, ghost sel0: bool, ghost s0: seq<bv8>,
                             ghost log0: seq<Frame>, ghost base: seq<OneWireDevice>, ghost turns: seq<seq<Turn>>,
                             ghost fill: seq<ChannelRun>)
      returns (r: Outcome, ghost turns': seq<seq<Turn>>, ghost fill': seq<ChannelRun>)
      requires i == |fill| < |channels|
      requires Filling(starts, sel0, s0, log0, base, turns, fill, Pass)
      requires RunsEnd(ChannelList(variant), starts, sel0, s0, turns, fill)
      modifies this`oneWireDevices, this`selected, device, channels[i], channels[i].romNo
      ensures |fill'| == i + 1 && Filling(starts, sel0, s0, log0, base, turns', fill', r)
      ensures RunsEnd(ChannelList(variant), starts, sel0, s0, turns', fill')
      ensures device.disposed == old(device.disposed)
    {
      var produced;
      ghost var t, run;
      ghost var replies, log, devices := device.replies, device.log, oneWireDevices;
      produced, r, t, run := EnumerateChannel(i, starts, sel0);
      CachedRun(channels, deviceTypes.types, ChannelList(variant), starts, sel0, s0, log0, base, turns, fill,
                replies, log, devices, t, run);
      CachedSnoc(channels, deviceTypes.types, ChannelList(variant), starts, sel0, s0, log0, base, turns, fill,
                 replies, log, devices, t, run, r.Pass?, device.replies, device.log);
      RunsEndSnoc(ChannelList(variant), starts, sel0, s0, turns, fill, t, run);
      turns', fill' := turns + [t], fill + [run];
    }

    /** The AddRange of GetConnectedOneWireDevices on channel i to the cache:
        the devices are appended as they are produced. The channel starts
        from its search state in starts, selected when it is the first
        channel and sel0 says so or when the run before selected it. */
    method EnumerateChannel(i: nat, ghost starts: seq<SearchState>, ghost sel0: bool)
      returns (devices: seq<OneWireDevice>, r: Outcome, ghost turns: seq<Turn>, ghost run: ChannelRun)
      requires Valid() && i < |channels| == |starts| && Ready(starts, sel0, i)
      modifies this`oneWireDevices, this`selected, device, channels[i], channels[i].romNo
      ensures RunChannel(i == 0 && sel0, ChannelList(variant)[i], starts[i], old(device.replies), turns) == Some(run)
      ensures ChannelEnds(i == 0 && sel0, ChannelList(variant)[i], starts[i], old(device.replies), turns)
      ensures devices == channels[i].DevicesFor(deviceTypes.types, run.codes) && (r.Pass? <==> run.passed)
      ensures oneWireDevices == old(oneWireDevices) + devices
      ensures r.Pass? ==>
        device.replies == run.rest && device.log == old(device.log) + run.frames && Ready(starts, sel0, i + 1)
      ensures device.disposed == old(device.disposed)
    {
      ghost var detected, codes;
      if i > 0 {
        ChannelListDistinct(variant, i);
      }
      devices, r, detected, codes, turns := channels[i].GetConnectedOneWireDevices(deviceTypes.types);
      run := RunChannel(i == 0 && sel0, ChannelList(variant)[i], starts[i], old(device.replies), turns).value;
      oneWireDevices := oneWireDevices + devices;
      forall k | i < k < |channels|
        ensures channels[k].State() == starts[k]
      {
        assert old(channels[k].State()) == starts[k];
      }
    }

    /** GetAllDevices: the cached devices, enumerating them first if needed. */
    method GetAllDevices()
      returns (r: Result<seq<OneWireDevice>>, ghost turns: seq<seq<Turn>>, ghost fill: seq<ChannelRun>)
      requires Valid()
      modifies this`oneWireDevices, this`initialized, this`selected, device, Repr()
      ensures Valid()
      ensures r.Ok? <==> initialized
      ensures r.Ok? ==> r.value == oneWireDevices
      ensures old(initialized) ==> r == Ok(old(oneWireDevices)) && unchanged(device)
      ensures !old(initialized) ==>
        Filling(old(StatesOf(channels)), old(IsCorrectChannelSelected(IO0)), old(device.replies), old(device.log),
          old(oneWireDevices), turns, fill, if r.Ok? then Pass else Fail(r.error)) &&
        RunsEnd(ChannelList(variant), old(StatesOf(channels)), old(IsCorrectChannelSelected(IO0)), old(device.replies),
          turns, fill) &&
        (r.Ok? ==> |fill| == |channels|)
      ensures device.disposed == old(device.disposed)
    {
      var init;
      init, turns, fill := InitializeDevices();
      if init.Fail? {
        return Err(init.error), turns, fill;
      }
      return Ok(oneWireDevices), turns, fill;
    }

    /** GetDevices<T>: the cached devices of type t, in cache order. */
    method GetDevices(t: DeviceType)
      returns (r: Result<seq<OneWireDevice>>, ghost turns: seq<seq<Turn>>, ghost fill: seq<ChannelRun>)
      requires Valid()
      modifies this`oneWireDevices, this`initialized, this`selected, device, Repr()
      ensures Valid()
      ensures r.Ok? <==> initialized
      ensures r.Ok? ==> r.value == OfType(oneWireDevices, t)
      ensures old(initialized) ==> r == Ok(OfType(old(oneWireDevices), t)) && unchanged(device)
      ensures !old(initialized) ==>
        Filling(old(StatesOf(channels)), old(IsCorrectChannelSelected(IO0)), old(device.replies), old(device.log),
          old(oneWireDevices), turns, fill, if r.Ok? then Pass else Fail(r.error)) &&
        RunsEnd(ChannelList(variant), old(StatesOf(channels)), old(IsCorrectChannelSelected(IO0)), old(device.replies),
          turns, fill) &&
        (r.Ok? ==> |fill| == |channels|)
      ensures device.disposed == old(device.disposed)
    {
      var init;
      init, turns, fill := InitializeDevices();
      if init.Fail? {
        return Err(init.error), turns, fill;
      }
      return Ok(OfType(oneWireDevices, t)), turns, fill;
    }

    /** OneWireReset: the reset of the first channel (IO0). On the
        DS2482-100 no channel select is ever written. */
    method OneWireReset() returns (r: Result<bool>)
      requires Valid()
      modifies device, this`selected
      ensures (r, device.replies) == ResetReplies(old(IsCorrectChannelSelected(IO0)), IO0, old(device.replies))
      ensures device.log == old(device.log) + ResetLog(old(IsCorrectChannelSelected(IO0)), IO0, old(device.replies))
      ensures variant == Ds2482_100 ==>
        device.log == old(device.log) + [Frame.Write([ONEWIRE_RESET])] &&
        (r, device.replies) == PollReset(old(device.replies)) && selected == old(selected)
      ensures r.Ok? ==> IsCorrectChannelSelected(IO0)
      ensures device.disposed == old(device.disposed)
    {
      r := channels[0].OneWireReset();
    }

    /** Dispose(true) as written: the I2C device is disposed exactly when the
        bridge was told NOT to dispose it. */
    method Dispose()
      modifies device
      ensures device.disposed == (old(device.disposed) || !disposeI2cDevice)
      ensures device.log == old(device.log) && device.replies == old(device.replies)
    {
      if !disposeI2cDevice {
        device.Dispose();
      }
    }

    /** Dispose as the ownership flag means it: the I2C device is disposed
        exactly when the bridge owns it. */
    method DisposeOwned()
      modifies device
      ensures device.disposed == (old(device.disposed) || disposeI2cDevice)
      ensures device.log == old(device.log) && device.replies == old(device.replies)
    {
      if disposeI2cDevice {
        device.Dispose();
      }
    }
  }
}
