/** The 1-Wire search algorithm of Maxim Application Note 187 as
    DS2482Channel.OneWireSearch runs it, stated over values: the search state
    the channel keeps between passes, and the effect of one pass given the
    presence result of the reset and the (bit, complement) pairs read from
    the bus. */
module SearchSpec {
  import opened Crc8
  import opened RomCode

  /** One answer of the bus to a search step: the AND of the participating
      devices' next ROM bit (id_bit) and of its complement (cmp_id_bit). */
  datatype Pair = Pair(bit: bool, cmp: bool)

  /** Both slots read 1: no device is still taking part in the search. */
  predicate NoDevices(p: Pair)
  {
    p.bit && p.cmp
  }

  /** Both slots read 0: devices with a 0 and devices with a 1 both remain. */
  predicate Discrepancy(p: Pair)
  {
    !p.bit && !p.cmp
  }

  /** The pairs of a pass read to its end: every position answered up to
      the last one read, which is position 64 or the first (1, 1). */
  predicate PassRead(pairs: seq<Pair>)
  {
    |pairs| <= 64 && (|pairs| == 64 || (|pairs| > 0 && NoDevices(pairs[|pairs| - 1]))) &&
    forall k :: 0 <= k < |pairs| - 1 ==> !NoDevices(pairs[k])
  }

  lemma PassReadAll(pairs: seq<Pair>)
    requires Answered(pairs) && |pairs| == 64
    ensures PassRead(pairs)
  {
  }

  lemma PassReadAbort(done: seq<Pair>, p: Pair)
    requires Answered(done) && |done| < 64 && NoDevices(p)
    ensures PassRead(done + [p])
  {
    assert forall k :: 0 <= k < |done| ==> (done + [p])[k] == done[k];
  }

  /** One call of OneWireSearch as read off the bus: the presence result of
      its reset and the pairs of its pass. */
  datatype Turn = Turn(presence: bool, pairs: seq<Pair>)

  /** The search state DS2482Channel keeps between passes. */
  datatype SearchState = SearchState(
    rom: seq<bv8>,
    lastDiscrepancy: int,
    lastFamilyDiscrepancy: int,
    lastDeviceFlag: bool,
    crc8: bv8)

  /** The branch rule: where all remaining devices agree, follow them; at a
      discrepancy before the last one repeat the previous choice (the stored
      ROM bit), at the last one take 1, after it take 0. */
  function Direction(p: Pair, idBitNumber: int, lastDiscrepancy: int, romBit: bool): bool
  {
    if p.bit != p.cmp then p.bit
    else if idBitNumber < lastDiscrepancy then romBit
    else idBitNumber == lastDiscrepancy
  }

  /** A zero taken at a discrepancy: the position is recorded in last_zero. */
  predicate ZeroChoice(p: Pair, dir: bool)
  {
    p.bit == p.cmp && !dir
  }

  /** The working values of a pass after some bit positions: the ROM code
      (as bits), last_zero, the family discrepancy and the CRC of the
      completed bytes. */
  datatype Walk = Walk(bits: seq<bool>, lastZero: int, lfd: int, crc: bv8)

  predicate Answered(pairs: seq<Pair>)
  {
    |pairs| <= 64 && forall k :: 0 <= k < |pairs| ==> !NoDevices(pairs[k])
  }

  /** Position n (1-based) of the walk: pick the direction, store it in the
      ROM code, record a zero taken at a discrepancy, and when n completes a
      byte fold that byte into the CRC. */
  function Advance(w: Walk, p: Pair, n: nat, ld: int): (w': Walk)
    requires |w.bits| == 64 && 1 <= n <= 64
    ensures |w'.bits| == 64
  {
    var dir := Direction(p, n, ld, w.bits[n - 1]);
    var bits := w.bits[n - 1 := dir];
    Walk(bits,
         if ZeroChoice(p, dir) then n else w.lastZero,
         if ZeroChoice(p, dir) && n < 9 then n else w.lfd,
         CrcAfter(w.crc, bits, n))
  }

  /** The CRC after position n (1-based): the byte that position n completes,
      if any, is folded in. */
  function CrcAfter(crc: bv8, bits: seq<bool>, n: nat): bv8
    requires |bits| == 64 && 1 <= n <= 64
  {
    if n % 8 == 0 then Step(crc, ByteOf(bits, n / 8 - 1)) else crc
  }

  /** The bit walk over the pairs read so far, position n = |pairs| being
      id_bit_number - 1. */
  function Steps(bits0: seq<bool>, ld: int, lfd0: int, pairs: seq<Pair>): (w: Walk)
    requires |bits0| == 64 && |pairs| <= 64
    ensures |w.bits| == 64
    decreases |pairs|
  {
    if |pairs| == 0 then Walk(bits0, 0, lfd0, 0)
    else Advance(Steps(bits0, ld, lfd0, pairs[..|pairs| - 1]), pairs[|pairs| - 1], |pairs|, ld)
  }

  /** The pairs a pass acts on: those before the first (1, 1) answer. */
  function Answers(pairs: seq<Pair>): (done: seq<Pair>)
    ensures |done| <= |pairs| && done == pairs[..|done|]
    ensures forall k :: 0 <= k < |done| ==> !NoDevices(done[k])
    ensures |done| < |pairs| ==> NoDevices(pairs[|done|])
  {
    if |pairs| == 0 then []
    else if NoDevices(pairs[0]) then []
    else [pairs[0]] + Answers(pairs[1..])
  }

  /** The state left by a pass that finds nothing: the next pass starts over. */
  function Restart(rom: seq<bv8>, crc: bv8): SearchState
  {
    SearchState(rom, 0, 0, false, crc)
  }

  /** The bit loop of a pass and its success test, given the pairs read:
      success needs all 64 positions answered and a zero CRC over the eight
      ROM bytes; it records last_zero as the last discrepancy and sets the
      last-device flag when there was none. A failed pass leaves the last
      discrepancy and the flag as they were. */
  function PassResult(st: SearchState, pairs: seq<Pair>): (bool, SearchState)
    requires |st.rom| == 8 && |pairs| <= 64
  {
    var done := Answers(pairs);
    var w := Steps(Bits(st.rom), st.lastDiscrepancy, st.lastFamilyDiscrepancy, done);
    var rom := Bytes(w.bits);
    if |done| == 64 && w.crc == 0 then (true, SearchState(rom, w.lastZero, w.lfd, w.lastZero == 0, w.crc))
    else (false, SearchState(rom, st.lastDiscrepancy, w.lfd, st.lastDeviceFlag, w.crc))
  }

  /** The final test of OneWireSearch: a pass that failed, or that found a
      ROM code whose family byte is 0, resets the search. */
  function Accept(found: bool, st: SearchState): (bool, SearchState)
    requires |st.rom| == 8
  {
    if !found || st.rom[0] == 0 then (false, Restart(st.rom, st.crc8)) else (true, st)
  }

  /** One call of OneWireSearch: its result and the new search state, given
      the presence result of the bus reset and the pairs read (at most 64,
      the last one (1, 1) when the pass was abandoned). */
  function Search(st: SearchState, presence: bool, pairs: seq<Pair>): (r: (bool, SearchState))
    requires |st.rom| == 8 && |pairs| <= 64
    ensures |r.1.rom| == 8
    ensures r.0 ==> presence && !st.lastDeviceFlag && r.1.rom[0] != 0
  {
    if st.lastDeviceFlag || !presence then (false, Restart(st.rom, 0))
    else
      var (found, st') := PassResult(st, pairs);
      Accept(found, st')
  }

  /** The direction the walk takes at position j: the stored bit it may
      repeat is the one the ROM code held when the pass began, because
      positions are written in order. */
  function DirectionAt(bits0: seq<bool>, ld: int, pairs: seq<Pair>, j: nat): bool
    requires |bits0| == 64 && j < |pairs| <= 64
  {
    Direction(pairs[j], j + 1, ld, bits0[j])
  }

  /** After the walk, the first |pairs| bits of the ROM code are the
      directions taken, and the bits not yet reached are the old ones. */
  lemma {:induction false} StepsBits(bits0: seq<bool>, ld: int, lfd0: int, pairs: seq<Pair>, j: nat)
    requires |bits0| == 64 && |pairs| <= 64 && j < 64
    ensures Steps(bits0, ld, lfd0, pairs).bits[j] ==
      if j < |pairs| then DirectionAt(bits0, ld, pairs, j) else bits0[j]
    decreases |pairs|
  {
    if |pairs| > 0 {
      var n := |pairs|;
      var prefix := pairs[..n - 1];
      StepsBits(bits0, ld, lfd0, prefix, j);
      StepsBits(bits0, ld, lfd0, prefix, n - 1);
      if j < n - 1 {
        assert DirectionAt(bits0, ld, prefix, j) == DirectionAt(bits0, ld, pairs, j);
      }
    }
  }

  /** The running CRC (_crc8) is the CRC-8 of the bytes completed so far. */
  lemma {:induction false} StepsCrc(bits0: seq<bool>, ld: int, lfd0: int, pairs: seq<Pair>)
    requires |bits0| == 64 && |pairs| <= 64
    ensures CrcOfCompleted(Steps(bits0, ld, lfd0, pairs), |pairs|)
    decreases |pairs|
  {
    if |pairs| > 0 {
      var n := |pairs|;
      StepsCrc(bits0, ld, lfd0, pairs[..n - 1]);
      AdvanceCrc(Steps(bits0, ld, lfd0, pairs[..n - 1]), pairs[n - 1], n, ld);
      assert Steps(bits0, ld, lfd0, pairs) == Advance(Steps(bits0, ld, lfd0, pairs[..n - 1]), pairs[n - 1], n, ld);
    }
  }

  /** The CRC of a walk after n positions covers the n / 8 completed bytes. */
  predicate CrcOfCompleted(w: Walk, n: nat)
    requires |w.bits| == 64 && n <= 64
  {
    w.crc == Crc(Bytes(w.bits)[..n / 8])
  }

  /** One position keeps the CRC equal to the CRC of the completed bytes. */
  lemma AdvanceCrc(v: Walk, p: Pair, n: nat, ld: int)
    requires |v.bits| == 64 && 1 <= n <= 64
    requires CrcOfCompleted(v, n - 1)
    ensures CrcOfCompleted(Advance(v, p, n, ld), n)
  {
    var dir := Direction(p, n, ld, v.bits[n - 1]);
    CrcAfterCompleted(v.crc, v.bits, n - 1, dir);
  }

  /** Folding in the byte that bit i completes, if any, gives the CRC of the
      completed bytes. */
  lemma CrcAfterCompleted(crc: bv8, bits: seq<bool>, i: nat, v: bool)
    requires |bits| == 64 && i < 64
    requires crc == Crc(Bytes(bits)[..i / 8])
    ensures CrcAfter(crc, bits[i := v], i + 1) == Crc(Bytes(bits[i := v])[..(i + 1) / 8])
  {
    var rom := Bytes(bits[i := v]);
    CompletedBytesKept(bits, i, v);
    NextPosition(i);
    if i % 8 == 7 {
      assert rom[i / 8] == ByteOf(bits[i := v], i / 8);
      CrcPrefix(rom, i / 8);
    }
  }

  /** Changing bit i leaves the bytes before byte i / 8 alone. */
  lemma CompletedBytesKept(bits: seq<bool>, i: nat, v: bool)
    requires |bits| == 64 && i < 64
    ensures Bytes(bits[i := v])[..i / 8] == Bytes(bits)[..i / 8]
  {
    forall k | 0 <= k < i / 8
      ensures Bytes(bits[i := v])[k] == Bytes(bits)[k]
    {
      ByteOfUpdate(bits, i, v, k);
    }
  }

  /** A zero taken at a discrepancy at position j of the walk. */
  predicate ZeroAt(bits0: seq<bool>, ld: int, pairs: seq<Pair>, j: nat)
    requires |bits0| == 64 && j < |pairs| <= 64
  {
    ZeroChoice(pairs[j], DirectionAt(bits0, ld, pairs, j))
  }

  lemma ZeroAtPrefix(bits0: seq<bool>, ld: int, pairs: seq<Pair>, m: nat, j: nat)
    requires |bits0| == 64 && j < m <= |pairs| <= 64
    ensures ZeroAt(bits0, ld, pairs[..m], j) == ZeroAt(bits0, ld, pairs, j)
  {
  }

  /** The last position m' <= m (1-based) where the walk took a zero at a
      discrepancy, or 0 when there is none. */
  function LastZeroIn(bits0: seq<bool>, ld: int, pairs: seq<Pair>, m: nat): (z: nat)
    requires |bits0| == 64 && m <= |pairs| <= 64
    ensures z <= m
    ensures z > 0 ==> ZeroAt(bits0, ld, pairs, z - 1)
    ensures forall j :: z <= j < m ==> !ZeroAt(bits0, ld, pairs, j)
  {
    if m == 0 then 0
    else if ZeroAt(bits0, ld, pairs, m - 1) then m
    else LastZeroIn(bits0, ld, pairs, m - 1)
  }

  lemma {:induction false} LastZeroInPrefix(bits0: seq<bool>, ld: int, pairs: seq<Pair>, n: nat, m: nat)
    requires |bits0| == 64 && m <= n <= |pairs| <= 64
    ensures LastZeroIn(bits0, ld, pairs[..n], m) == LastZeroIn(bits0, ld, pairs, m)
    decreases m
  {
    if m > 0 {
      ZeroAtPrefix(bits0, ld, pairs, n, m - 1);
      LastZeroInPrefix(bits0, ld, pairs, n, m - 1);
    }
  }

  /** The bookkeeping of one more step, in terms of the step before. */
  lemma StepsZeroFields(bits0: seq<bool>, ld: int, lfd0: int, pairs: seq<Pair>)
    requires |bits0| == 64 && |pairs| <= 64 && |pairs| > 0
    ensures var n := |pairs|;
      var w := Steps(bits0, ld, lfd0, pairs); var v := Steps(bits0, ld, lfd0, pairs[..n - 1]);
      w.lastZero == (if ZeroAt(bits0, ld, pairs, n - 1) then n else v.lastZero) &&
      w.lfd == (if ZeroAt(bits0, ld, pairs, n - 1) && n < 9 then n else v.lfd)
  {
    var n := |pairs|;
    StepsBits(bits0, ld, lfd0, pairs[..n - 1], n - 1);
  }

  /** last_zero is the position (1-based) of the last zero taken at a
      discrepancy, or 0 when the walk took none. */
  lemma {:induction false} StepsLastZero(bits0: seq<bool>, ld: int, lfd0: int, pairs: seq<Pair>)
    requires |bits0| == 64 && |pairs| <= 64
    ensures Steps(bits0, ld, lfd0, pairs).lastZero == LastZeroIn(bits0, ld, pairs, |pairs|)
    decreases |pairs|
  {
    if |pairs| > 0 {
      var n := |pairs|;
      StepsLastZero(bits0, ld, lfd0, pairs[..n - 1]);
      StepsZeroFields(bits0, ld, lfd0, pairs);
      LastZeroInPrefix(bits0, ld, pairs, n - 1, n - 1);
      if !ZeroAt(bits0, ld, pairs, n - 1) {
        assert LastZeroIn(bits0, ld, pairs, n) == LastZeroIn(bits0, ld, pairs, n - 1);
      }
    }
  }

  /** The last position within the family code (positions 1 to 8) where the
      walk took a zero at a discrepancy, or 0 when there is none. */
  function FamilyZero(bits0: seq<bool>, ld: int, pairs: seq<Pair>): nat
    requires |bits0| == 64 && |pairs| <= 64
  {
    LastZeroIn(bits0, ld, pairs, if |pairs| < 8 then |pairs| else 8)
  }

  /** _lastFamilyDiscrepancy becomes the last zero taken within the family
      code (positions 1 to 8), and keeps its old value when there was none. */
  lemma {:induction false} StepsFamilyZero(bits0: seq<bool>, ld: int, lfd0: int, pairs: seq<Pair>)
    requires |bits0| == 64 && |pairs| <= 64
    ensures var z := FamilyZero(bits0, ld, pairs);
      Steps(bits0, ld, lfd0, pairs).lfd == if z == 0 then lfd0 else z
    decreases |pairs|
  {
    if |pairs| > 0 {
      var n := |pairs|;
      StepsFamilyZero(bits0, ld, lfd0, pairs[..n - 1]);
      StepsZeroFields(bits0, ld, lfd0, pairs);
      var m := if n - 1 < 8 then n - 1 else 8;
      LastZeroInPrefix(bits0, ld, pairs, n - 1, m);
    }
  }

  /** rom_byte_mask walks the bits of a byte and becomes 0 after bit 7. */
  lemma MaskShift(k: nat)
    requires k < 8
    ensures Mask(k) != 0
    ensures k < 7 ==> Mask(k) << 1 == Mask(k + 1)
    ensures k == 7 ==> Mask(k) << 1 == 0
  {
  }

  /** Moving from bit n to bit n + 1 (0-based) of the ROM code: the byte
      number and the bit within the byte. */
  lemma NextPosition(n: nat)
    ensures n % 8 == 7 ==> (n + 1) % 8 == 0 && (n + 1) / 8 == n / 8 + 1
    ensures n % 8 != 7 ==> (n + 1) % 8 == n % 8 + 1 && (n + 1) / 8 == n / 8
  {
  }

  lemma {:induction false} AnswersAll(pairs: seq<Pair>)
    requires Answered(pairs)
    ensures Answers(pairs) == pairs
    decreases |pairs|
  {
    if |pairs| > 0 {
      AnswersAll(pairs[1..]);
      assert [pairs[0]] + pairs[1..] == pairs;
    }
  }

  lemma {:induction false} AnswersAbort(done: seq<Pair>, p: Pair)
    requires Answered(done) && NoDevices(p)
    ensures Answers(done + [p]) == done
    decreases |done|
  {
    if |done| == 0 {
    } else {
      assert (done + [p])[1..] == done[1..] + [p];
      AnswersAbort(done[1..], p);
      assert [done[0]] + done[1..] == done;
    }
  }

  /** One more position of the walk. */
  lemma StepsSnoc(bits0: seq<bool>, ld: int, lfd0: int, done: seq<Pair>, p: Pair)
    requires |bits0| == 64 && |done| < 64
    ensures Steps(bits0, ld, lfd0, done + [p]) == Advance(Steps(bits0, ld, lfd0, done), p, |done| + 1, ld)
  {
    var pairs := done + [p];
    assert pairs[..|done|] == done && pairs[|done|] == p;
  }

  /** The fields of one position of the walk, one at a time. */
  lemma AdvanceFields(w: Walk, p: Pair, n: nat, ld: int, dir: bool, w': Walk)
    requires |w.bits| == 64 && 1 <= n <= 64
    requires dir == Direction(p, n, ld, w.bits[n - 1])
    requires w'.bits == w.bits[n - 1 := dir]
    requires w'.lastZero == (if ZeroChoice(p, dir) then n else w.lastZero)
    requires w'.lfd == (if ZeroChoice(p, dir) && n < 9 then n else w.lfd)
    requires w'.crc == CrcAfter(w.crc, w'.bits, n)
    ensures Advance(w, p, n, ld) == w'
  {
  }
}
