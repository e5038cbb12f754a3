/** The 64-bit ROM code of a 1-Wire device in the two shapes the search
    uses: the eight bytes of the ROM buffer (ROM_NO), where bit i of the code
    is bit i % 8 of byte i / 8, and the sequence of the 64 bits in the order
    the search visits them. */
module RomCode {

  /** The mask of bit k of a ROM byte (rom_byte_mask), least significant first. */
  function Mask(k: nat): (m: bv8)
    requires k < 8
  {
    (1 as bv8) << k
  }

  /** Bit i (0-based) of the ROM code held in an 8-byte buffer. */
  function RomBit(rom: seq<bv8>, i: nat): bool
    requires |rom| == 8 && i < 64
  {
    rom[i / 8] & Mask(i % 8) != 0
  }

  /** `ROM_NO[i / 8] |= mask` or `ROM_NO[i / 8] &= (byte)~mask`. */
  function SetRomBit(rom: seq<bv8>, i: nat, v: bool): (r: seq<bv8>)
    requires |rom| == 8 && i < 64
    ensures |r| == 8
  {
    rom[i / 8 := WithBit(rom[i / 8], Mask(i % 8), v)]
  }

  /** A byte with the bits of mask set (v) or cleared (not v). */
  function WithBit(b: bv8, mask: bv8, v: bool): bv8
  {
    if v then b | mask else b & !mask
  }

  /** Bit i read through its byte number and mask, as the search loop keeps
      them (rom_byte_number, rom_byte_mask). */
  lemma RomBitAt(rom: seq<bv8>, i: nat, byteNumber: nat, mask: bv8)
    requires |rom| == 8 && i < 64 && byteNumber == i / 8 && mask == Mask(i % 8)
    ensures RomBit(rom, i) == (rom[byteNumber] & mask > 0)
  {
  }

  /** Bit i written through its byte number and mask. */
  lemma SetRomBitAt(rom: seq<bv8>, i: nat, v: bool, byteNumber: nat, mask: bv8)
    requires |rom| == 8 && i < 64 && byteNumber == i / 8 && mask == Mask(i % 8)
    ensures SetRomBit(rom, i, v) == rom[byteNumber := WithBit(rom[byteNumber], mask, v)]
  {
  }

  /** The 64 bits of a ROM buffer, in search order. */
  function Bits(rom: seq<bv8>): (bits: seq<bool>)
    requires |rom| == 8
    ensures |bits| == 64
  {
    seq(64, i requires 0 <= i < 64 => RomBit(rom, i))
  }

  /** Byte k of the ROM code whose bits are given, bit 8k first. */
  function ByteOf(bits: seq<bool>, k: nat): bv8
    requires |bits| == 64 && k < 8
  {
    var b := 8 * k;
    (if bits[b] then 1 else 0) | (if bits[b + 1] then 2 else 0) |
    (if bits[b + 2] then 4 else 0) | (if bits[b + 3] then 8 else 0) |
    (if bits[b + 4] then 16 else 0) | (if bits[b + 5] then 32 else 0) |
    (if bits[b + 6] then 64 else 0) | (if bits[b + 7] then 128 else 0)
  }

  /** The ROM buffer holding the given 64 bits. */
  function Bytes(bits: seq<bool>): (rom: seq<bv8>)
    requires |bits| == 64
    ensures |rom| == 8
  {
    seq(8, k requires 0 <= k < 8 => ByteOf(bits, k))
  }

  /** Setting or clearing one position changes that bit of the ROM code and
      no other. */
  lemma SetRomBitChangesOneBit(rom: seq<bv8>, i: nat, v: bool, j: nat)
    requires |rom| == 8 && i < 64 && j < 64
    ensures RomBit(SetRomBit(rom, i, v), j) == if j == i then v else RomBit(rom, j)
  {
    if j / 8 == i / 8 {
      SameByteBit(rom[i / 8], i % 8, j % 8, v);
    }
  }

  lemma SameByteBit(b: bv8, k: nat, m: nat, v: bool)
    requires k < 8 && m < 8
    ensures (WithBit(b, Mask(k), v) & Mask(m) != 0) == if m == k then v else (b & Mask(m) != 0)
  {
  }

  /** Bit m of byte k of Bytes(bits) is bits[8k + m]. */
  lemma ByteOfBit(bits: seq<bool>, k: nat, m: nat)
    requires |bits| == 64 && k < 8 && m < 8
    ensures (ByteOf(bits, k) & Mask(m) != 0) == bits[8 * k + m]
  {
    if m == 0 {
    } else if m == 1 {
    } else if m == 2 {
    } else if m == 3 {
    } else if m == 4 {
    } else if m == 5 {
    } else if m == 6 {
    } else {
    }
  }

  lemma RomBitOfBytes(bits: seq<bool>, i: nat)
    requires |bits| == 64 && i < 64
    ensures RomBit(Bytes(bits), i) == bits[i]
  {
    ByteOfBit(bits, i / 8, i % 8);
  }

  /** Reading the bits of a buffer built from bits gives them back. */
  lemma BitsOfBytes(bits: seq<bool>)
    requires |bits| == 64
    ensures Bits(Bytes(bits)) == bits
  {
    forall i | 0 <= i < 64
      ensures Bits(Bytes(bits))[i] == bits[i]
    {
      RomBitOfBytes(bits, i);
    }
  }

  /** A byte is the sum of its set bits. */
  lemma ByteOfItsBits(b: bv8)
    ensures (if b & 1 != 0 then 1 else 0) | (if b & 2 != 0 then 2 else 0) |
      (if b & 4 != 0 then 4 else 0) | (if b & 8 != 0 then 8 else 0) |
      (if b & 16 != 0 then 16 else 0) | (if b & 32 != 0 then 32 else 0) |
      (if b & 64 != 0 then 64 else 0) | (if b & 128 != 0 then 128 else 0) == b
  {
  }

  /** Bit c of byte k, read through Bits. */
  lemma BitsAt(rom: seq<bv8>, k: nat, c: nat)
    requires |rom| == 8 && k < 8 && c < 8
    ensures Bits(rom)[8 * k + c] == (rom[k] & Mask(c) != 0)
  {
    assert (8 * k + c) / 8 == k && (8 * k + c) % 8 == c;
  }

  lemma ByteOfBits(rom: seq<bv8>, k: nat)
    requires |rom| == 8 && k < 8
    ensures ByteOf(Bits(rom), k) == rom[k]
  {
    var bits := Bits(rom);
    forall c | 0 <= c < 8
      ensures bits[8 * k + c] == (rom[k] & Mask(c) != 0)
    {
      BitsAt(rom, k, c);
    }
    ByteOfMaskBits(bits, k, rom[k]);
  }

  /** A byte of the code is the byte whose mask bits its eight bits give. */
  lemma ByteOfMaskBits(bits: seq<bool>, k: nat, b: bv8)
    requires |bits| == 64 && k < 8
    requires forall c :: 0 <= c < 8 ==> bits[8 * k + c] == (b & Mask(c) != 0)
    ensures ByteOf(bits, k) == b
  {
    assert bits[8 * k + 0] == (b & Mask(0) != 0);
    assert bits[8 * k + 1] == (b & Mask(1) != 0);
    assert bits[8 * k + 2] == (b & Mask(2) != 0);
    assert bits[8 * k + 3] == (b & Mask(3) != 0);
    assert bits[8 * k + 4] == (b & Mask(4) != 0);
    assert bits[8 * k + 5] == (b & Mask(5) != 0);
    assert bits[8 * k + 6] == (b & Mask(6) != 0);
    assert bits[8 * k + 7] == (b & Mask(7) != 0);
    MaskValues();
    ByteOfSetBits(bits, k, b);
  }

  /** Two bytes with the same eight bits are equal. */
  lemma SameMaskBits(a: bv8, b: bv8)
    requires forall c :: 0 <= c < 8 ==> (a & Mask(c) != 0) == (b & Mask(c) != 0)
    ensures a == b
  {
    assert (a & Mask(0) != 0) == (b & Mask(0) != 0);
    assert (a & Mask(1) != 0) == (b & Mask(1) != 0);
    assert (a & Mask(2) != 0) == (b & Mask(2) != 0);
    assert (a & Mask(3) != 0) == (b & Mask(3) != 0);
    assert (a & Mask(4) != 0) == (b & Mask(4) != 0);
    assert (a & Mask(5) != 0) == (b & Mask(5) != 0);
    assert (a & Mask(6) != 0) == (b & Mask(6) != 0);
    assert (a & Mask(7) != 0) == (b & Mask(7) != 0);
    MaskValues();
    ByteOfItsBits(a);
    ByteOfItsBits(b);
  }

  lemma MaskValues()
    ensures Mask(0) == 1 && Mask(1) == 2 && Mask(2) == 4 && Mask(3) == 8
    ensures Mask(4) == 16 && Mask(5) == 32 && Mask(6) == 64 && Mask(7) == 128
  {
  }

  lemma ByteOfSetBits(bits: seq<bool>, k: nat, b: bv8)
    requires |bits| == 64 && k < 8
    requires bits[8 * k] == (b & 1 != 0) && bits[8 * k + 1] == (b & 2 != 0)
    requires bits[8 * k + 2] == (b & 4 != 0) && bits[8 * k + 3] == (b & 8 != 0)
    requires bits[8 * k + 4] == (b & 16 != 0) && bits[8 * k + 5] == (b & 32 != 0)
    requires bits[8 * k + 6] == (b & 64 != 0) && bits[8 * k + 7] == (b & 128 != 0)
    ensures ByteOf(bits, k) == b
  {
    ByteOfItsBits(b);
  }

  /** Building a buffer from the bits of a buffer gives it back. */
  lemma BytesOfBits(rom: seq<bv8>)
    requires |rom| == 8
    ensures Bytes(Bits(rom)) == rom
  {
    forall k | 0 <= k < 8
      ensures Bytes(Bits(rom))[k] == rom[k]
    {
      ByteOfBits(rom, k);
    }
  }

  /** The byte update of the ROM buffer is the bit update of the code. */
  lemma SetRomBitOfBytes(bits: seq<bool>, i: nat, v: bool)
    requires |bits| == 64 && i < 64
    ensures SetRomBit(Bytes(bits), i, v) == Bytes(bits[i := v])
  {
    var rom := SetRomBit(Bytes(bits), i, v);
    forall j | 0 <= j < 64
      ensures Bits(rom)[j] == bits[i := v][j]
    {
      SetRomBitChangesOneBit(Bytes(bits), i, v, j);
      RomBitOfBytes(bits, j);
    }
    assert Bits(rom) == bits[i := v];
    BytesOfBits(rom);
  }

  /** A byte of the code depends only on its own eight bits. */
  lemma ByteOfUpdate(bits: seq<bool>, i: nat, v: bool, k: nat)
    requires |bits| == 64 && i < 64 && k < 8 && i / 8 != k
    ensures ByteOf(bits[i := v], k) == ByteOf(bits, k)
  {
  }
}
