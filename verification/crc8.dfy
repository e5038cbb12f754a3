/** The Dallas/Maxim 1-Wire CRC-8 (polynomial x^8 + x^5 + x^4 + 1), computed by
    table lookup one byte at a time as in Maxim Application Note 27. The same step
    is used by the ROM search (to accept a 64-bit ROM code) and by the scratchpad
    check of the temperature sensors. */
module Crc8 {

  /** The 256 entries of DS2482Channel.dscrc_table, sixteen to a row. */
  const TableRows: seq<seq<bv8>> := [
      [  0,  94, 188, 226,  97,  63, 221, 131, 194, 156, 126,  32, 163, 253,  31,  65],
      [157, 195,  33, 127, 252, 162,  64,  30,  95,   1, 227, 189,  62,  96, 130, 220],
      [ 35, 125, 159, 193,  66,  28, 254, 160, 225, 191,  93,   3, 128, 222,  60,  98],
      [190, 224,   2,  92, 223, 129,  99,  61, 124,  34, 192, 158,  29,  67, 161, 255],
      [ 70,  24, 250, 164,  39, 121, 155, 197, 132, 218,  56, 102, 229, 187,  89,   7],
      [219, 133, 103,  57, 186, 228,   6,  88,  25,  71, 165, 251, 120,  38, 196, 154],
      [101,  59, 217, 135,   4,  90, 184, 230, 167, 249,  27,  69, 198, 152, 122,  36],
      [248, 166,  68,  26, 153, 199,  37, 123,  58, 100, 134, 216,  91,   5, 231, 185],
      [140, 210,  48, 110, 237, 179,  81,  15,  78,  16, 242, 172,  47, 113, 147, 205],
      [ 17,  79, 173, 243, 112,  46, 204, 146, 211, 141, 111,  49, 178, 236,  14,  80],
      [175, 241,  19,  77, 206, 144, 114,  44, 109,  51, 209, 143,  12,  82, 176, 238],
      [ 50, 108, 142, 208,  83,  13, 239, 177, 240, 174,  76,  18, 145, 207,  45, 115],
      [202, 148, 118,  40, 171, 245,  23,  73,   8,  86, 180, 234, 105,  55, 213, 139],
      [ 87,   9, 235, 181,  54, 104, 138, 212, 149, 203,  41, 119, 244, 170,  72,  22],
      [233, 183,  85,  11, 136, 214,  52, 106,  43, 117, 151, 201,  74,  20, 246, 168],
      [116,  42, 200, 150,  21,  75, 169, 247, 182, 232,  10,  84, 215, 137, 107,  53]
    ]

  /** One step of the table-driven CRC as docrc8 computes it:
      crc := table[crc ^ b], the entry at index x being row x / 16, column x % 16. */
  function TableStep(crc: bv8, b: bv8): bv8
  {
    var x := crc ^ b;
    TableRows[(x >> 4) as int][(x & 15) as int]
  }

  /** One step of the CRC as the polynomial division defines it: the byte is
      folded into the register, then eight bits are shifted out of its low end,
      the reflected polynomial 0x8C being folded in whenever a 1 drops out. */
  function Step(crc: bv8, b: bv8): bv8
  {
    Shifts(crc ^ b, 8)
  }

  /** k rounds of the division. */
  function Shifts(x: bv8, k: nat): bv8
  {
    if k == 0 then x else Shift(Shifts(x, k - 1))
  }

  /** One bit of the division: shift right, folding in 0x8C when a 1 drops out. */
  function Shift(x: bv8): bv8
  {
    if x & 1 == 1 then (x >> 1) ^ 0x8C else x >> 1
  }

  /** The eight rounds written out. */
  function BitwiseStep(crc: bv8, b: bv8): bv8
  {
    var x := crc ^ b;
    Shift(Shift(Shift(Shift(Shift(Shift(Shift(Shift(x))))))))
  }

  lemma StepUnrolled(crc: bv8, b: bv8)
    ensures Step(crc, b) == BitwiseStep(crc, b)
  {
    var x := crc ^ b;
    assert Shifts(x, 1) == Shift(x);
    assert Shifts(x, 2) == Shift(Shift(x));
    assert Shifts(x, 3) == Shift(Shift(Shift(x)));
    assert Shifts(x, 4) == Shift(Shift(Shift(Shift(x))));
    assert Shifts(x, 5) == Shift(Shifts(x, 4));
    assert Shifts(x, 6) == Shift(Shifts(x, 5));
    assert Shifts(x, 7) == Shift(Shifts(x, 6));
  }

  /** The CRC of a byte string, folding Step from 0 and left to right, as
      DS2482Channel.docrc8 does over the ROM bytes and DS18X20Base.CheckCrc does
      over the scratchpad bytes. */
  function Crc(data: seq<bv8>): bv8
  {
    if |data| == 0 then 0 else Step(Crc(data[..|data| - 1]), data[|data| - 1])
  }

  /** The lookup table is the polynomial division: every entry agrees with
      the bit-by-bit definition. */
  lemma TableIsBitwise(crc: bv8, b: bv8)
    ensures TableStep(crc, b) == Step(crc, b)
  {
    StepUnrolled(crc, b);
    TableRowsAreBitwise(crc, b);
  }

  lemma TableRowsAreBitwise(crc: bv8, b: bv8)
    ensures TableStep(crc, b) == BitwiseStep(crc, b)
  {
    var row := (crc ^ b) >> 4;
    if row == 0 {
      Row0IsBitwise(crc, b);
    } else if row == 1 {
      Row1IsBitwise(crc, b);
    } else if row == 2 {
      Row2IsBitwise(crc, b);
    } else if row == 3 {
      Row3IsBitwise(crc, b);
    } else if row == 4 {
      Row4IsBitwise(crc, b);
    } else if row == 5 {
      Row5IsBitwise(crc, b);
    } else if row == 6 {
      Row6IsBitwise(crc, b);
    } else if row == 7 {
      Row7IsBitwise(crc, b);
    } else if row == 8 {
      Row8IsBitwise(crc, b);
    } else if row == 9 {
      Row9IsBitwise(crc, b);
    } else if row == 10 {
      Row10IsBitwise(crc, b);
    } else if row == 11 {
      Row11IsBitwise(crc, b);
    } else if row == 12 {
      Row12IsBitwise(crc, b);
    } else if row == 13 {
      Row13IsBitwise(crc, b);
    } else if row == 14 {
      Row14IsBitwise(crc, b);
    } else {
      Row15IsBitwise(crc, b);
    }
  }

  /** Row 0 of the table, checked column by column. */
  lemma Row0IsBitwise(crc: bv8, b: bv8)
    requires (crc ^ b) >> 4 == 0
    ensures TableStep(crc, b) == BitwiseStep(crc, b)
  {
    var col := (crc ^ b) & 15;
    if col < 4 { if col == 0 {} else if col == 1 {} else if col == 2 {} else {} }
    else if col < 8 { if col == 4 {} else if col == 5 {} else if col == 6 {} else {} }
    else if col < 12 { if col == 8 {} else if col == 9 {} else if col == 10 {} else {} }
    else { if col == 12 {} else if col == 13 {} else if col == 14 {} else {} }
  }

  lemma Row1IsBitwise(crc: bv8, b: bv8)
    requires (crc ^ b) >> 4 == 1
    ensures TableStep(crc, b) == BitwiseStep(crc, b)
  {
    var col := (crc ^ b) & 15;
    if col < 4 { if col == 0 {} else if col == 1 {} else if col == 2 {} else {} }
    else if col < 8 { if col == 4 {} else if col == 5 {} else if col == 6 {} else {} }
    else if col < 12 { if col == 8 {} else if col == 9 {} else if col == 10 {} else {} }
    else { if col == 12 {} else if col == 13 {} else if col == 14 {} else {} }
  }

  lemma Row2IsBitwise(crc: bv8, b: bv8)
    requires (crc ^ b) >> 4 == 2
    ensures TableStep(crc, b) == BitwiseStep(crc, b)
  {
    var col := (crc ^ b) & 15;
    if col < 4 { if col == 0 {} else if col == 1 {} else if col == 2 {} else {} }
    else if col < 8 { if col == 4 {} else if col == 5 {} else if col == 6 {} else {} }
    else if col < 12 { if col == 8 {} else if col == 9 {} else if col == 10 {} else {} }
    else { if col == 12 {} else if col == 13 {} else if col == 14 {} else {} }
  }

  lemma Row3IsBitwise(crc: bv8, b: bv8)
    requires (crc ^ b) >> 4 == 3
    ensures TableStep(crc, b) == BitwiseStep(crc, b)
  {
    var col := (crc ^ b) & 15;
    if col < 4 { if col == 0 {} else if col == 1 {} else if col == 2 {} else {} }
    else if col < 8 { if col == 4 {} else if col == 5 {} else if col == 6 {} else {} }
    else if col < 12 { if col == 8 {} else if col == 9 {} else if col == 10 {} else {} }
    else { if col == 12 {} else if col == 13 {} else if col == 14 {} else {} }
  }

  lemma Row4IsBitwise(crc: bv8, b: bv8)
    requires (crc ^ b) >> 4 == 4
    ensures TableStep(crc, b) == BitwiseStep(crc, b)
  {
    var col := (crc ^ b) & 15;
    if col < 4 { if col == 0 {} else if col == 1 {} else if col == 2 {} else {} }
    else if col < 8 { if col == 4 {} else if col == 5 {} else if col == 6 {} else {} }
    else if col < 12 { if col == 8 {} else if col == 9 {} else if col == 10 {} else {} }
    else { if col == 12 {} else if col == 13 {} else if col == 14 {} else {} }
  }

  lemma Row5IsBitwise(crc: bv8, b: bv8)
    requires (crc ^ b) >> 4 == 5
    ensures TableStep(crc, b) == BitwiseStep(crc, b)
  {
    var col := (crc ^ b) & 15;
    if col < 4 { if col == 0 {} else if col == 1 {} else if col == 2 {} else {} }
    else if col < 8 { if col == 4 {} else if col == 5 {} else if col == 6 {} else {} }
    else if col < 12 { if col == 8 {} else if col == 9 {} else if col == 10 {} else {} }
    else { if col == 12 {} else if col == 13 {} else if col == 14 {} else {} }
  }

  lemma Row6IsBitwise(crc: bv8, b: bv8)
    requires (crc ^ b) >> 4 == 6
    ensures TableStep(crc, b) == BitwiseStep(crc, b)
  {
    var col := (crc ^ b) & 15;
    if col < 4 { if col == 0 {} else if col == 1 {} else if col == 2 {} else {} }
    else if col < 8 { if col == 4 {} else if col == 5 {} else if col == 6 {} else {} }
    else if col < 12 { if col == 8 {} else if col == 9 {} else if col == 10 {} else {} }
    else { if col == 12 {} else if col == 13 {} else if col == 14 {} else {} }
  }

  lemma Row7IsBitwise(crc: bv8, b: bv8)
    requires (crc ^ b) >> 4 == 7
    ensures TableStep(crc, b) == BitwiseStep(crc, b)
  {
    var col := (crc ^ b) & 15;
    if col < 4 { if col == 0 {} else if col == 1 {} else if col == 2 {} else {} }
    else if col < 8 { if col == 4 {} else if col == 5 {} else if col == 6 {} else {} }
    else if col < 12 { if col == 8 {} else if col == 9 {} else if col == 10 {} else {} }
    else { if col == 12 {} else if col == 13 {} else if col == 14 {} else {} }
  }

  lemma Row8IsBitwise(crc: bv8, b: bv8)
    requires (crc ^ b) >> 4 == 8
    ensures TableStep(crc, b) == BitwiseStep(crc, b)
  {
    var col := (crc ^ b) & 15;
    if col < 4 { if col == 0 {} else if col == 1 {} else if col == 2 {} else {} }
    else if col < 8 { if col == 4 {} else if col == 5 {} else if col == 6 {} else {} }
    else if col < 12 { if col == 8 {} else if col == 9 {} else if col == 10 {} else {} }
    else { if col == 12 {} else if col == 13 {} else if col == 14 {} else {} }
  }

  lemma Row9IsBitwise(crc: bv8, b: bv8)
    requires (crc ^ b) >> 4 == 9
    ensures TableStep(crc, b) == BitwiseStep(crc, b)
  {
    var col := (crc ^ b) & 15;
    if col < 4 { if col == 0 {} else if col == 1 {} else if col == 2 {} else {} }
    else if col < 8 { if col == 4 {} else if col == 5 {} else if col == 6 {} else {} }
    else if col < 12 { if col == 8 {} else if col == 9 {} else if col == 10 {} else {} }
    else { if col == 12 {} else if col == 13 {} else if col == 14 {} else {} }
  }

  lemma Row10IsBitwise(crc: bv8, b: bv8)
    requires (crc ^ b) >> 4 == 10
    ensures TableStep(crc, b) == BitwiseStep(crc, b)
  {
    var col := (crc ^ b) & 15;
    if col < 4 { if col == 0 {} else if col == 1 {} else if col == 2 {} else {} }
    else if col < 8 { if col == 4 {} else if col == 5 {} else if col == 6 {} else {} }
    else if col < 12 { if col == 8 {} else if col == 9 {} else if col == 10 {} else {} }
    else { if col == 12 {} else if col == 13 {} else if col == 14 {} else {} }
  }

  lemma Row11IsBitwise(crc: bv8, b: bv8)
    requires (crc ^ b) >> 4 == 11
    ensures TableStep(crc, b) == BitwiseStep(crc, b)
  {
    var col := (crc ^ b) & 15;
    if col < 4 { if col == 0 {} else if col == 1 {} else if col == 2 {} else {} }
    else if col < 8 { if col == 4 {} else if col == 5 {} else if col == 6 {} else {} }
    else if col < 12 { if col == 8 {} else if col == 9 {} else if col == 10 {} else {} }
    else { if col == 12 {} else if col == 13 {} else if col == 14 {} else {} }
  }

  lemma Row12IsBitwise(crc: bv8, b: bv8)
    requires (crc ^ b) >> 4 == 12
    ensures TableStep(crc, b) == BitwiseStep(crc, b)
  {
    var col := (crc ^ b) & 15;
    if col < 4 { if col == 0 {} else if col == 1 {} else if col == 2 {} else {} }
    else if col < 8 { if col == 4 {} else if col == 5 {} else if col == 6 {} else {} }
    else if col < 12 { if col == 8 {} else if col == 9 {} else if col == 10 {} else {} }
    else { if col == 12 {} else if col == 13 {} else if col == 14 {} else {} }
  }

  lemma Row13IsBitwise(crc: bv8, b: bv8)
    requires (crc ^ b) >> 4 == 13
    ensures TableStep(crc, b) == BitwiseStep(crc, b)
  {
    var col := (crc ^ b) & 15;
    if col < 4 { if col == 0 {} else if col == 1 {} else if col == 2 {} else {} }
    else if col < 8 { if col == 4 {} else if col == 5 {} else if col == 6 {} else {} }
    else if col < 12 { if col == 8 {} else if col == 9 {} else if col == 10 {} else {} }
    else { if col == 12 {} else if col == 13 {} else if col == 14 {} else {} }
  }

  lemma Row14IsBitwise(crc: bv8, b: bv8)
    requires (crc ^ b) >> 4 == 14
    ensures TableStep(crc, b) == BitwiseStep(crc, b)
  {
    var col := (crc ^ b) & 15;
    if col < 4 { if col == 0 {} else if col == 1 {} else if col == 2 {} else {} }
    else if col < 8 { if col == 4 {} else if col == 5 {} else if col == 6 {} else {} }
    else if col < 12 { if col == 8 {} else if col == 9 {} else if col == 10 {} else {} }
    else { if col == 12 {} else if col == 13 {} else if col == 14 {} else {} }
  }

  lemma Row15IsBitwise(crc: bv8, b: bv8)
    requires (crc ^ b) >> 4 == 15
    ensures TableStep(crc, b) == BitwiseStep(crc, b)
  {
    var col := (crc ^ b) & 15;
    if col < 4 { if col == 0 {} else if col == 1 {} else if col == 2 {} else {} }
    else if col < 8 { if col == 4 {} else if col == 5 {} else if col == 6 {} else {} }
    else if col < 12 { if col == 8 {} else if col == 9 {} else if col == 10 {} else {} }
    else { if col == 12 {} else if col == 13 {} else if col == 14 {} else {} }
  }

  lemma ShiftInjective(x: bv8, y: bv8)
    ensures Shift(x) == Shift(y) ==> x == y
  {
  }

  lemma BitwiseInjective(crc: bv8, b1: bv8, b2: bv8)
    ensures BitwiseStep(crc, b1) == BitwiseStep(crc, b2) ==> b1 == b2
  {
    forall u: bv8, v: bv8 ensures Shift(u) == Shift(v) ==> u == v {
      ShiftInjective(u, v);
    }
  }

  lemma BitwiseZero(crc: bv8, b: bv8)
    ensures BitwiseStep(crc, b) == 0 <==> crc == b
  {
  }

  /** For a fixed register value, distinct bytes give distinct results: the
      table is a permutation of 0..255. */
  lemma StepInjective(crc: bv8, b1: bv8, b2: bv8)
    ensures Step(crc, b1) == Step(crc, b2) ==> b1 == b2
  {
    StepUnrolled(crc, b1);
    StepUnrolled(crc, b2);
    BitwiseInjective(crc, b1, b2);
  }

  /** 0 occurs in the table only at index 0, so a step yields 0 exactly when the
      byte equals the register. */
  lemma StepZero(crc: bv8, b: bv8)
    ensures Step(crc, b) == 0 <==> crc == b
  {
    StepUnrolled(crc, b);
    BitwiseZero(crc, b);
  }

  /** Appending the CRC byte: the CRC of data + [c] is 0 exactly when c is the
      CRC of data. This is why DS18X20Base.CheckCrc (compare the CRC of bytes 0..7
      with byte 8) and the ROM search (CRC of all 8 bytes is 0) are the same test. */
  lemma CrcAppendZero(data: seq<bv8>, c: bv8)
    ensures Crc(data + [c]) == 0 <==> Crc(data) == c
  {
    assert (data + [c])[..|data|] == data;
    StepZero(Crc(data), c);
  }

  lemma {:induction false} CrcPrefix(data: seq<bv8>, n: nat)
    requires n < |data|
    ensures Crc(data[..n + 1]) == Step(Crc(data[..n]), data[n])
  {
    assert data[..n + 1][..n] == data[..n];
  }
}
