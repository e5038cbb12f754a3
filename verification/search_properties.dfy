/** What the passes of the search achieve, stated over the values of
    SearchSpec: the ROM code a successful pass finds, the state set up by
    OneWireVerify, OneWireTargetSetup and OneWireFamilySkipSetup and what the
    next pass does from it, and a bus of devices answering with the wired AND
    of their bits. */
module SearchProperties {
  import opened Crc8
  import opened RomCode
  import opened SearchSpec

  /** A call that returns true walked all 64 positions, each answered, and
      left in the ROM buffer the direction it took at each. */
  lemma SearchFoundPath(st: SearchState, presence: bool, pairs: seq<Pair>)
    requires |st.rom| == 8 && |pairs| <= 64
    requires Search(st, presence, pairs).0
    ensures presence && !st.lastDeviceFlag && |pairs| == 64 && Answered(pairs)
    ensures var rom := Search(st, presence, pairs).1.rom;
      forall j :: 0 <= j < 64 ==> RomBit(rom, j) == DirectionAt(Bits(st.rom), st.lastDiscrepancy, pairs, j)
  {
    var w := FoundWalk(st, presence, pairs);
    WalkBits(Bits(st.rom), st.lastDiscrepancy, st.lastFamilyDiscrepancy, pairs);
  }

  /** The ROM code a call that returns true leaves is a valid one: its CRC-8
      over all eight bytes is 0 and its family byte is not 0. */
  lemma SearchFoundValid(st: SearchState, presence: bool, pairs: seq<Pair>)
    requires |st.rom| == 8 && |pairs| <= 64
    requires Search(st, presence, pairs).0
    ensures var rom := Search(st, presence, pairs).1.rom;
      Crc(rom) == 0 && rom[0] != 0
  {
    var w := FoundWalk(st, presence, pairs);
    StepsCrc(Bits(st.rom), st.lastDiscrepancy, st.lastFamilyDiscrepancy, pairs);
    FoundCrc(w, |pairs|);
  }

  /** After a call that returns true, the last discrepancy is the last
      position where the pass took a zero at a discrepancy. */
  lemma SearchFoundDiscrepancy(st: SearchState, presence: bool, pairs: seq<Pair>)
    requires |st.rom| == 8 && |pairs| <= 64
    requires Search(st, presence, pairs).0
    ensures var st' := Search(st, presence, pairs).1;
      st'.lastDiscrepancy == LastZeroIn(Bits(st.rom), st.lastDiscrepancy, pairs, |pairs|)
  {
    var w := FoundWalk(st, presence, pairs);
    StepsLastZero(Bits(st.rom), st.lastDiscrepancy, st.lastFamilyDiscrepancy, pairs);
  }

  /** After a call that returns true, the last-device flag is set exactly
      when the pass took no zero at a discrepancy, so that the next call
      returns false. */
  lemma SearchFoundLastDevice(st: SearchState, presence: bool, pairs: seq<Pair>)
    requires |st.rom| == 8 && |pairs| <= 64
    requires Search(st, presence, pairs).0
    ensures var st' := Search(st, presence, pairs).1;
      st'.lastDeviceFlag == (st'.lastDiscrepancy == 0)
  {
    var w := FoundWalk(st, presence, pairs);
  }

  /** After a call that returns true, the family discrepancy is the last
      zero taken at a discrepancy within the family code, or the old value
      when there was none. */
  lemma SearchFoundFamily(st: SearchState, presence: bool, pairs: seq<Pair>)
    requires |st.rom| == 8 && |pairs| <= 64
    requires Search(st, presence, pairs).0
    ensures var st' := Search(st, presence, pairs).1;
      var z := FamilyZero(Bits(st.rom), st.lastDiscrepancy, pairs);
      st'.lastFamilyDiscrepancy == if z == 0 then st.lastFamilyDiscrepancy else z
  {
    var w := FoundWalk(st, presence, pairs);
    StepsFamilyZero(Bits(st.rom), st.lastDiscrepancy, st.lastFamilyDiscrepancy, pairs);
  }

  /** A call that returns false leaves the search to start over. */
  lemma SearchNotFound(st: SearchState, presence: bool, pairs: seq<Pair>)
    requires |st.rom| == 8 && |pairs| <= 64
    requires !Search(st, presence, pairs).0
    ensures var st' := Search(st, presence, pairs).1;
      st'.lastDiscrepancy == 0 && st'.lastFamilyDiscrepancy == 0 && !st'.lastDeviceFlag
  {
  }

  /** A call that returns true is a pass over 64 answered positions, and
      the new state is read off the walk: its bits as the ROM buffer, its
      last zero as the last discrepancy, a zero CRC. */
  lemma FoundWalk(st: SearchState, presence: bool, pairs: seq<Pair>) returns (w: Walk)
    requires |st.rom| == 8 && |pairs| <= 64
    requires Search(st, presence, pairs).0
    ensures presence && !st.lastDeviceFlag && |pairs| == 64 && Answered(pairs) && Answers(pairs) == pairs
    ensures w == Steps(Bits(st.rom), st.lastDiscrepancy, st.lastFamilyDiscrepancy, pairs) && w.crc == 0
    ensures Search(st, presence, pairs).1 ==
      SearchState(Bytes(w.bits), w.lastZero, w.lfd, w.lastZero == 0, w.crc)
    ensures Bytes(w.bits)[0] != 0
  {
    var done := Answers(pairs);
    w := Steps(Bits(st.rom), st.lastDiscrepancy, st.lastFamilyDiscrepancy, done);
    assert PassResult(st, pairs).0;
    assert |done| == 64;
    assert done == pairs;
  }

  /** Conversely, a pass over 64 answered positions whose walk ends with a
      zero CRC and a family byte other than 0 returns true. */
  lemma WalkFound(st: SearchState, presence: bool, pairs: seq<Pair>, w: Walk)
    requires |st.rom| == 8 && |pairs| == 64 && presence && !st.lastDeviceFlag && Answered(pairs)
    requires w == Steps(Bits(st.rom), st.lastDiscrepancy, st.lastFamilyDiscrepancy, pairs)
    requires w.crc == 0 && Bytes(w.bits)[0] != 0
    ensures Search(st, presence, pairs) ==
      (true, SearchState(Bytes(w.bits), w.lastZero, w.lfd, w.lastZero == 0, w.crc))
  {
    AnswersAll(pairs);
  }

  /** A walk over all 64 positions whose CRC is 0 leaves a ROM code whose
      CRC-8 is 0. */
  lemma FoundCrc(w: Walk, n: nat)
    requires |w.bits| == 64 && n == 64 && w.crc == 0
    requires CrcOfCompleted(w, n)
    ensures Crc(Bytes(w.bits)) == 0
  {
    var rom := Bytes(w.bits);
    assert n / 8 == 8 && rom[..8] == rom;
  }

  /** The ROM buffer built from the walk holds the directions taken. */
  lemma WalkBits(bits0: seq<bool>, ld: int, lfd0: int, pairs: seq<Pair>)
    requires |bits0| == 64 && |pairs| == 64
    ensures forall j :: 0 <= j < 64 ==>
      RomBit(Bytes(Steps(bits0, ld, lfd0, pairs).bits), j) == DirectionAt(bits0, ld, pairs, j)
  {
    var w := Steps(bits0, ld, lfd0, pairs);
    forall j | 0 <= j < 64
      ensures RomBit(Bytes(w.bits), j) == DirectionAt(bits0, ld, pairs, j)
    {
      RomBitOfBytes(w.bits, j);
      StepsBits(bits0, ld, lfd0, pairs, j);
    }
  }

  /** A device whose ROM bit at a position is b can have taken part in the
      answer p: it pulls the bit slot low when b is 0 and the complement slot
      low when b is 1. */
  predicate Agrees(p: Pair, b: bool)
  {
    if b then !p.cmp else !p.bit
  }

  /** The ROM code found follows every answer that was not a discrepancy:
      each answer is one the found device could have given. */
  lemma FoundAgrees(st: SearchState, presence: bool, pairs: seq<Pair>, j: nat)
    requires |st.rom| == 8 && |pairs| <= 64 && j < 64
    requires Search(st, presence, pairs).0
    ensures |pairs| == 64 && Agrees(pairs[j], RomBit(Search(st, presence, pairs).1.rom, j))
  {
    SearchFoundPath(st, presence, pairs);
  }

  /** The state OneWireVerify searches from: the saved ROM code with the
      last discrepancy set to 64 and the last-device flag cleared. */
  function VerifyStart(st: SearchState): (v: SearchState)
    ensures v.rom == st.rom && v.lastFamilyDiscrepancy == st.lastFamilyDiscrepancy
    ensures v.lastDiscrepancy == 64 && !v.lastDeviceFlag
  {
    SearchState(st.rom, 64, st.lastFamilyDiscrepancy, false, st.crc8)
  }

  /** The result of OneWireVerify: the search from VerifyStart succeeds and
      finds the saved ROM code again. */
  predicate Verified(st: SearchState, presence: bool, pairs: seq<Pair>)
    requires |st.rom| == 8 && |pairs| <= 64
  {
    var (found, st') := Search(VerifyStart(st), presence, pairs);
    found && st'.rom == st.rom
  }

  /** A verify that succeeds saw the saved device answer at every position. */
  lemma VerifiedAgrees(st: SearchState, presence: bool, pairs: seq<Pair>)
    requires |st.rom| == 8 && |pairs| <= 64
    requires Verified(st, presence, pairs)
    ensures presence && |pairs| == 64
    ensures forall j :: 0 <= j < 64 ==> Agrees(pairs[j], RomBit(st.rom, j))
  {
    forall j | 0 <= j < 64
      ensures |pairs| == 64 && Agrees(pairs[j], RomBit(st.rom, j))
    {
      FoundAgrees(VerifyStart(st), presence, pairs, j);
    }
    SearchFoundPath(VerifyStart(st), presence, pairs);
  }

  /** Conversely, a verify of a valid ROM code (zero CRC-8, family byte not 0)
      succeeds when presence was seen and every answer agrees with the code,
      unless the last position is a discrepancy where the code holds a 0 (the
      search takes 1 at position 64). */
  lemma AgreesVerified(st: SearchState, presence: bool, pairs: seq<Pair>)
    requires |st.rom| == 8 && |pairs| == 64
    requires presence && Crc(st.rom) == 0 && st.rom[0] != 0
    requires forall j :: 0 <= j < 64 ==> Agrees(pairs[j], RomBit(st.rom, j))
    requires Discrepancy(pairs[63]) ==> RomBit(st.rom, 63)
    ensures Verified(st, presence, pairs)
  {
    var v := VerifyStart(st);
    var w := RepeatWalk(st.rom, v.lastFamilyDiscrepancy, pairs);
    WalkFound(v, presence, pairs, w);
  }

  /** A walk from last discrepancy 64 whose answers all agree with the ROM
      code it starts from writes that code again, and its CRC is the CRC-8 of
      the code. */
  lemma RepeatWalk(rom: seq<bv8>, lfd: int, pairs: seq<Pair>) returns (w: Walk)
    requires |rom| == 8 && |pairs| == 64
    requires forall j :: 0 <= j < 64 ==> Agrees(pairs[j], RomBit(rom, j))
    requires Discrepancy(pairs[63]) ==> RomBit(rom, 63)
    ensures Answered(pairs)
    ensures w == Steps(Bits(rom), 64, lfd, pairs)
    ensures Bytes(w.bits) == rom && w.crc == Crc(rom)
  {
    var bits0 := Bits(rom);
    forall k | 0 <= k < 64
      ensures !NoDevices(pairs[k])
    {
      assert Agrees(pairs[k], RomBit(rom, k));
    }
    w := Steps(bits0, 64, lfd, pairs);
    forall j | 0 <= j < 64
      ensures w.bits[j] == bits0[j]
    {
      StepsBits(bits0, 64, lfd, pairs, j);
      assert Agrees(pairs[j], RomBit(rom, j));
    }
    assert w.bits == bits0;
    BytesOfBits(rom);
    StepsCrc(bits0, 64, lfd, pairs);
    assert Bytes(w.bits)[..8] == rom;
  }

  /** The state OneWireTargetSetup leaves: the family code followed by seven
      zero bytes, the last discrepancy 64, no family discrepancy, flag clear. */
  function TargetStart(familyCode: bv8, crc: bv8): (st: SearchState)
    ensures |st.rom| == 8 && st.rom[0] == familyCode
    ensures forall k :: 1 <= k < 8 ==> st.rom[k] == 0
    ensures st.lastDiscrepancy == 64 && st.lastFamilyDiscrepancy == 0 && !st.lastDeviceFlag
  {
    SearchState([familyCode, 0, 0, 0, 0, 0, 0, 0], 64, 0, false, crc)
  }

  /** After OneWireTargetSetup, a successful pass whose answers in the family
      code agree with the target family finds a device of that family. */
  lemma TargetFound(familyCode: bv8, crc: bv8, presence: bool, pairs: seq<Pair>)
    requires |pairs| <= 64
    requires Search(TargetStart(familyCode, crc), presence, pairs).0
    requires forall j :: 0 <= j < |pairs| && j < 8 ==> Agrees(pairs[j], familyCode & Mask(j) != 0)
    ensures Search(TargetStart(familyCode, crc), presence, pairs).1.rom[0] == familyCode
  {
    var st := TargetStart(familyCode, crc);
    SearchFoundPath(st, presence, pairs);
    forall j | 0 <= j < 8
      ensures Agrees(pairs[j], RomBit(st.rom, j))
    {
      assert RomBit(st.rom, j) == (familyCode & Mask(j) != 0);
    }
    FamilyByteRepeated(Search(st, presence, pairs).1.rom, st.rom, st.lastDiscrepancy, pairs);
  }

  /** A pass that resumes beyond the family code and whose answers in the
      family code agree with the old ROM code keeps its family byte. */
  lemma FamilyByteRepeated(rom: seq<bv8>, rom0: seq<bv8>, ld: int, pairs: seq<Pair>)
    requires |rom| == 8 && |rom0| == 8 && |pairs| == 64 && ld > 8
    requires forall j :: 0 <= j < 64 ==> RomBit(rom, j) == DirectionAt(Bits(rom0), ld, pairs, j)
    requires forall j :: 0 <= j < 8 ==> Agrees(pairs[j], RomBit(rom0, j))
    ensures rom[0] == rom0[0]
  {
    forall c | 0 <= c < 8
      ensures (rom[0] & Mask(c) != 0) == (rom0[0] & Mask(c) != 0)
    {
      assert RomBit(rom, c) == DirectionAt(Bits(rom0), ld, pairs, c);
      assert Agrees(pairs[c], RomBit(rom0, c));
    }
    SameMaskBits(rom[0], rom0[0]);
  }

  /** The state OneWireFamilySkipSetup leaves: the search resumes at the last
      family discrepancy, and ends when there was none. */
  function FamilySkip(st: SearchState): (st': SearchState)
    ensures st'.rom == st.rom && st'.lastDiscrepancy == st.lastFamilyDiscrepancy
    ensures st'.lastFamilyDiscrepancy == 0
    ensures st'.lastDeviceFlag == (st.lastDeviceFlag || st.lastFamilyDiscrepancy == 0)
  {
    SearchState(st.rom, st.lastFamilyDiscrepancy, 0,
      if st.lastFamilyDiscrepancy == 0 then true else st.lastDeviceFlag, st.crc8)
  }

  /** After OneWireFamilySkipSetup the next pass repeats the earlier choices
      before the family discrepancy and takes the 1 branch at it; with no
      family discrepancy it finds nothing. */
  lemma FamilySkipBranches(st: SearchState, presence: bool, pairs: seq<Pair>)
    requires |st.rom| == 8 && |pairs| <= 64
    ensures st.lastFamilyDiscrepancy == 0 ==> !Search(FamilySkip(st), presence, pairs).0
    ensures Search(FamilySkip(st), presence, pairs).0 ==>
      var z := st.lastFamilyDiscrepancy;
      var rom' := Search(FamilySkip(st), presence, pairs).1.rom;
      |pairs| == 64 &&
      (forall j :: 0 <= j < 64 && j + 1 < z && Discrepancy(pairs[j]) ==> RomBit(rom', j) == RomBit(st.rom, j)) &&
      (1 <= z <= 64 && Discrepancy(pairs[z - 1]) ==> RomBit(rom', z - 1))
  {
    if Search(FamilySkip(st), presence, pairs).0 {
      SearchFoundPath(FamilySkip(st), presence, pairs);
    }
  }

  /** The answer of a bus holding devices with the given ROM codes (as bits)
      at the position after `path`: the devices whose codes begin with the
      directions written so far take part; the bit slot reads the AND of
      their bits, the complement slot the AND of the complements. No device
      left gives (1, 1). */
  function BusAnswer(devices: set<seq<bool>>, path: seq<bool>): Pair
  {
    Pair(forall d :: d in devices && |path| < |d| && d[..|path|] == path ==> d[|path|],
         forall d :: d in devices && |path| < |d| && d[..|path|] == path ==> !d[|path|])
  }

  /** On a bus that answers with the wired AND of its devices' bits, a
      successful pass finds the ROM code of a device on the bus. */
  lemma BusSearchFindsDevice(devices: set<seq<bool>>, st: SearchState, presence: bool, pairs: seq<Pair>)
    requires |st.rom| == 8 && |pairs| <= 64
    requires forall d :: d in devices ==> |d| == 64
    requires Search(st, presence, pairs).0
    requires forall j :: 0 <= j < |pairs| ==>
      pairs[j] == BusAnswer(devices, Bits(Search(st, presence, pairs).1.rom)[..j])
    ensures Bits(Search(st, presence, pairs).1.rom) in devices
  {
    var bits := Bits(Search(st, presence, pairs).1.rom);
    SearchFoundPath(st, presence, pairs);
    forall j | 0 <= j < 64
      ensures pairs[j].bit != pairs[j].cmp ==> bits[j] == pairs[j].bit
    {
      assert bits[j] == RomBit(Search(st, presence, pairs).1.rom, j);
    }
    var d := FollowDevices(devices, bits, pairs, 64);
    assert d[..64] == d && bits[..64] == bits;
  }

  /** Some device follows the first n directions, when each was the bit all
      remaining devices agree on, or one side of a discrepancy. */
  lemma {:induction false} FollowDevices(devices: set<seq<bool>>, bits: seq<bool>, pairs: seq<Pair>, n: nat)
    returns (d: seq<bool>)
    requires |bits| == 64 && |pairs| == 64 && n <= 64
    requires forall d :: d in devices ==> |d| == 64
    requires forall j :: 0 <= j < 64 ==> pairs[j] == BusAnswer(devices, bits[..j]) && !NoDevices(pairs[j])
    requires forall j :: 0 <= j < 64 ==> pairs[j].bit != pairs[j].cmp ==> bits[j] == pairs[j].bit
    ensures d in devices && d[..n] == bits[..n]
    decreases n
  {
    if n == 0 {
      d := Participant(devices, [], !pairs[0].cmp);
    } else {
      var e := FollowDevices(devices, bits, pairs, n - 1);
      var j := n - 1;
      d := FollowStep(devices, bits[..j], e, pairs[j], bits[j]);
      assert bits[..n] == bits[..j] + [bits[j]];
    }
  }

  /** A device takes part in the answer after path with bit b when the slot
      that such a device pulls low reads 0. */
  lemma Participant(devices: set<seq<bool>>, path: seq<bool>, b: bool) returns (d: seq<bool>)
    requires Agrees(BusAnswer(devices, path), b)
    ensures d in devices && |path| < |d| && d[..|path|] == path && d[|path|] == b
  {
    d :| d in devices && |path| < |d| && d[..|path|] == path && d[|path|] == b;
  }

  /** The directions a pass takes at its first n positions. */
  function Path(bits0: seq<bool>, ld: int, pairs: seq<Pair>, n: nat): (path: seq<bool>)
    requires |bits0| == 64 && n <= |pairs| <= 64
    ensures |path| == n && forall j :: 0 <= j < n ==> path[j] == DirectionAt(bits0, ld, pairs, j)
  {
    if n == 0 then [] else Path(bits0, ld, pairs, n - 1) + [DirectionAt(bits0, ld, pairs, n - 1)]
  }

  /** The pairs a pass from st reads off a wired-AND bus of devices: each
      is the devices' answer to the directions taken before it, and the pass
      reads them up to position 64 or the first (1, 1). */
  predicate BusPass(devices: set<seq<bool>>, st: SearchState, pairs: seq<Pair>)
    requires |st.rom| == 8
  {
    PassRead(pairs) &&
    forall j :: 0 <= j < |pairs| ==> pairs[j] == BusAnswer(devices, Path(Bits(st.rom), st.lastDiscrepancy, pairs, j))
  }

  /** Completeness of one pass: on a wired-AND bus whose devices all carry
      valid ROM codes, a pass that is not after the last device and sees a
      presence pulse finds a ROM code, and it is the code of one of the
      devices. */
  lemma BusSearchFindsSome(devices: set<seq<bool>>, st: SearchState, pairs: seq<Pair>)
    requires |st.rom| == 8 && !st.lastDeviceFlag && devices != {}
    requires forall d :: d in devices ==> |d| == 64 && Crc(Bytes(d)) == 0 && Bytes(d)[0] != 0
    requires BusPass(devices, st, pairs)
    ensures Search(st, true, pairs).0 && Bits(Search(st, true, pairs).1.rom) in devices
  {
    var bits0, ld, lfd0 := Bits(st.rom), st.lastDiscrepancy, st.lastFamilyDiscrepancy;
    BusPassAnswered(devices, bits0, ld, pairs);
    var d := BusWalk(devices, bits0, ld, lfd0, pairs);
    WalkCrc(bits0, ld, lfd0, pairs);
    WalkFound(st, true, pairs, Steps(bits0, ld, lfd0, pairs));
    BitsOfBytes(d);
  }

  /** The walk of a pass over 64 positions of a wired-AND bus writes the
      code of one of the devices. */
  lemma BusWalk(devices: set<seq<bool>>, bits0: seq<bool>, ld: int, lfd0: int, pairs: seq<Pair>)
    returns (d: seq<bool>)
    requires |bits0| == 64 && |pairs| == 64 && devices != {}
    requires forall d :: d in devices ==> |d| == 64
    requires forall j :: 0 <= j < |pairs| ==> pairs[j] == BusAnswer(devices, Path(bits0, ld, pairs, j))
    ensures d in devices && Steps(bits0, ld, lfd0, pairs).bits == d
  {
    d := Followed(devices, bits0, ld, pairs, 64);
    assert d[..64] == d;
    WalkIsPath(bits0, ld, lfd0, pairs);
  }

  /** On a wired-AND bus with a device, a pass never reads (1, 1), so it
      reads all 64 positions. */
  lemma BusPassAnswered(devices: set<seq<bool>>, bits0: seq<bool>, ld: int, pairs: seq<Pair>)
    requires |bits0| == 64 && PassRead(pairs) && devices != {}
    requires forall d :: d in devices ==> |d| == 64
    requires forall j :: 0 <= j < |pairs| ==> pairs[j] == BusAnswer(devices, Path(bits0, ld, pairs, j))
    ensures |pairs| == 64 && Answered(pairs)
  {
    forall j | 0 <= j < |pairs|
      ensures !NoDevices(pairs[j])
    {
      var e := Followed(devices, bits0, ld, pairs, j);
      e := FollowStep(devices, Path(bits0, ld, pairs, j), e, pairs[j], DirectionAt(bits0, ld, pairs, j));
    }
  }

  /** A walk over all 64 positions writes the directions taken into every
      bit of the ROM code. */
  lemma WalkIsPath(bits0: seq<bool>, ld: int, lfd0: int, pairs: seq<Pair>)
    requires |bits0| == 64 && |pairs| == 64
    ensures Steps(bits0, ld, lfd0, pairs).bits == Path(bits0, ld, pairs, 64)
  {
    forall j | 0 <= j < 64
      ensures Steps(bits0, ld, lfd0, pairs).bits[j] == Path(bits0, ld, pairs, 64)[j]
    {
      StepsBits(bits0, ld, lfd0, pairs, j);
    }
  }

  /** The CRC a walk over all 64 positions ends with is the CRC-8 of the
      eight ROM bytes it wrote. */
  lemma WalkCrc(bits0: seq<bool>, ld: int, lfd0: int, pairs: seq<Pair>)
    requires |bits0| == 64 && |pairs| == 64
    ensures Steps(bits0, ld, lfd0, pairs).crc == Crc(Bytes(Steps(bits0, ld, lfd0, pairs).bits))
  {
    var rom := Bytes(Steps(bits0, ld, lfd0, pairs).bits);
    StepsCrc(bits0, ld, lfd0, pairs);
    assert rom[..64 / 8] == rom;
  }

  /** Some device follows the first n directions of a pass on a wired-AND
      bus. */
  lemma {:induction false} Followed(devices: set<seq<bool>>, bits0: seq<bool>, ld: int, pairs: seq<Pair>, n: nat)
    returns (d: seq<bool>)
    requires |bits0| == 64 && n <= |pairs| <= 64 && devices != {}
    requires forall d :: d in devices ==> |d| == 64
    requires forall j :: 0 <= j < |pairs| ==> pairs[j] == BusAnswer(devices, Path(bits0, ld, pairs, j))
    ensures d in devices && d[..n] == Path(bits0, ld, pairs, n)
    decreases n
  {
    if n == 0 {
      d :| d in devices;
    } else {
      var e := Followed(devices, bits0, ld, pairs, n - 1);
      var j := n - 1;
      var path := Path(bits0, ld, pairs, j);
      d := FollowStep(devices, path, e, pairs[j], DirectionAt(bits0, ld, pairs, j));
    }
  }

  /** A device that follows the path takes part in the bus answer, which is
      therefore not (1, 1), and some device follows the direction taken
      after it. */
  lemma FollowStep(devices: set<seq<bool>>, path: seq<bool>, e: seq<bool>, p: Pair, dir: bool)
    returns (d: seq<bool>)
    requires e in devices && |path| < |e| && e[..|path|] == path
    requires p == BusAnswer(devices, path)
    requires p.bit != p.cmp ==> dir == p.bit
    ensures !NoDevices(p)
    ensures d in devices && |path| < |d| && d[..|path| + 1] == path + [dir]
  {
    assert Agrees(p, e[|path|]);
    d := Participant(devices, path, dir);
    assert d[..|path| + 1] == d[..|path|] + [d[|path|]];
  }
}
