/** The two helpers of ExtensionMethods.cs: testing one bit of a status byte
    and rendering a ROM code as text. */
module ExtensionMethods {
  import opened Errors

  /** `(b & (1 << bitNumber)) != 0` in C#: the byte is widened to a 32-bit int
      and the shift count is taken modulo 32 (`bitNumber & 31`, which is
      Dafny's Euclidean `% 32` also for negative counts). */
  function GetBit(b: bv8, bitNumber: int): (isSet: bool)
    ensures 8 <= bitNumber % 32 ==> !isSet
  {
    (b as bv32) & ((1 as bv32) << (bitNumber % 32)) != 0
  }

  function Pow2(n: nat): (p: nat)
    ensures p > 0
  {
    if n == 0 then 1 else 2 * Pow2(n - 1)
  }

  /** For a bit position inside the byte, GetBit reads the n-th binary digit. */
  lemma {:induction false} GetBitIsBinaryDigit(b: bv8, n: int)
    requires 0 <= n <= 7
    ensures GetBit(b, n) <==> (b as int / Pow2(n)) % 2 == 1
    decreases n
  {
    HalfByte(b);
    if n > 0 {
      ShiftBit(b, n - 1);
      GetBitIsBinaryDigit(b >> 1, n - 1);
      DivDiv(b as int, 2, Pow2(n - 1));
    }
  }

  lemma HalfByte(b: bv8)
    ensures b as int / 2 == (b >> 1) as int
    ensures b as int % 2 == 1 <==> b & 1 == 1
  {
  }

  lemma ShiftBit(b: bv8, n: int)
    requires 0 <= n < 7
    ensures GetBit(b, n + 1) <==> GetBit(b >> 1, n)
  {
  }

  lemma {:induction false} MulAtLeast(d: int, k: int)
    requires d > 0 && k >= 1
    ensures d * k >= d
    decreases k
  {
    if k > 1 {
      MulAtLeast(d, k - 1);
      assert d * k == d * (k - 1) + d;
    }
  }

  lemma DivUnique(x: int, d: int, q: int, r: int)
    requires d > 0 && 0 <= r < d && x == d * q + r
    ensures x / d == q
  {
    var q', r' := x / d, x % d;
    assert x == d * q' + r';
    if q' < q {
      MulAtLeast(d, q - q');
    } else if q' > q {
      MulAtLeast(d, q' - q);
    }
  }

  lemma DivDiv(x: nat, a: nat, c: nat)
    requires a > 0 && c > 0
    ensures x / a / c == x / (a * c)
  {
    var q := x / a / c;
    var r1 := x % a;
    var r2 := (x / a) % c;
    assert x / a == c * q + r2;
    assert x == a * (x / a) + r1;
    assert x == (a * c) * q + (a * r2 + r1) by {
      assert a * (c * q + r2) == (a * c) * q + a * r2;
    }
    assert a * r2 <= a * (c - 1) by {
      assert r2 <= c - 1;
    }
    DivUnique(x, a * c, q, a * r2 + r1);
  }

  /** The upper-case hex digit of a nibble: '0'..'9', then 'A'..'F'. */
  function HexChar(n: int): char
    requires 0 <= n < 16
  {
    if n < 10 then (n + '0' as int) as char else (n - 10 + 'A' as int) as char
  }

  /** Two upper-case hexadecimal digits, high nibble first. */
  function HexByte(b: bv8): (s: string)
    ensures |s| == 2 && s[0] != '-' && s[1] != '-'
  {
    [HexChar(b as int / 16), HexChar(b as int % 16)]
  }

  /** BitConverter.ToString over the sensor id (its OneWireAddress): each byte
      as two upper-case hex digits, the pairs joined by '-'. */
  function FormatIdString(bytes: seq<bv8>): (s: string)
    ensures |bytes| == 0 ==> s == ""
    ensures |bytes| > 0 ==> |s| == 3 * |bytes| - 1
    ensures forall i :: 0 <= i < |s| ==> (s[i] == '-' <==> i % 3 == 2)
  {
    if |bytes| == 0 then ""
    else if |bytes| == 1 then HexByte(bytes[0])
    else HexByte(bytes[0]) + "-" + FormatIdString(bytes[1..])
  }

  /** The value of one upper-case hex digit. */
  function HexValue(c: char): Option<int>
  {
    if '0' <= c <= '9' then Some(c as int - '0' as int)
    else if 'A' <= c <= 'F' then Some(c as int - 'A' as int + 10)
    else None
  }

  function ParseHexByte(hi: char, lo: char): Option<bv8>
  {
    match (HexValue(hi), HexValue(lo))
    case (Some(h), Some(l)) => Some((h * 16 + l) as bv8)
    case _ => None
  }

  /** The inverse of FormatIdString: reads hyphen-separated hex pairs back. */
  function ParseIdString(s: string): Option<seq<bv8>>
  {
    if s == "" then Some([]) else ParsePairs(s)
  }

  function ParsePairs(s: string): Option<seq<bv8>>
    requires s != ""
    decreases |s|
  {
    if |s| < 2 then None
    else
      match ParseHexByte(s[0], s[1])
      case None => None
      case Some(b) =>
        if |s| == 2 then Some([b])
        else if |s| > 3 && s[2] == '-' then
          match ParsePairs(s[3..])
          case None => None
          case Some(rest) => Some([b] + rest)
        else None
  }

  lemma NibbleRoundTrip(n: int)
    requires 0 <= n < 16
    ensures HexValue(HexChar(n)) == Some(n)
  {
  }

  lemma HexByteRoundTrip(b: bv8)
    ensures ParseHexByte(HexByte(b)[0], HexByte(b)[1]) == Some(b)
  {
    var h, l := b as int / 16, b as int % 16;
    NibbleRoundTrip(h);
    NibbleRoundTrip(l);
    assert (h * 16 + l) as bv8 == b;
  }

  /** Reading the id string back yields the bytes it was made from, so two
      different addresses never share a display string. */
  lemma {:induction false} FormatIdStringRoundTrip(bytes: seq<bv8>)
    ensures ParseIdString(FormatIdString(bytes)) == Some(bytes)
    decreases |bytes|
  {
    if |bytes| > 0 {
      var s := FormatIdString(bytes);
      HexByteRoundTrip(bytes[0]);
      if |bytes| == 1 {
        assert s == HexByte(bytes[0]);
        assert ParsePairs(s) == Some([bytes[0]]);
        assert bytes == [bytes[0]];
      } else {
        var rest := FormatIdString(bytes[1..]);
        assert s == HexByte(bytes[0]) + "-" + rest;
        assert s[0] == HexByte(bytes[0])[0] && s[1] == HexByte(bytes[0])[1];
        assert s[2] == '-' && s[3..] == rest;
        FormatIdStringRoundTrip(bytes[1..]);
        assert rest != "";
        assert ParsePairs(rest) == Some(bytes[1..]);
        assert [bytes[0]] + bytes[1..] == bytes;
      }
    }
  }
}
