/** The temperature decoders of the DS18B20 and the DS18S20 (DS18B20.cs and
    DS18S20.cs): both read the 16-bit two's-complement temperature register
    from scratchpad bytes 0 (LSB) and 1 (MSB); the DS18B20 counts sixteenths
    of a degree, the DS18S20 halves, refined by its count-remain and
    count-per-degree registers. Values are exact reals. */
module Temperature {

  /** What a sensor read yields: no value (the C# null), a temperature, or
      the two IEEE results the DS18S20 formula gives when its count-per-degree
      byte is 0. */
  datatype Reading = NoValue | Celsius(degrees: real) | NegativeInfinity | NotANumber

  /** The scratchpad register positions the decoders read. */
  const TemperatureLsb := 0
  const TemperatureMsb := 1
  const CountRemain := 6
  const CountPerC := 7

  /** `unchecked((short)(lsb | (msb << 8)))`: the 16-bit two's-complement
      value of the register. */
  function Raw(lsb: bv8, msb: bv8): (raw: int)
    ensures -32768 <= raw <= 32767
    ensures raw < 0 <==> msb & 0x80 != 0
    ensures raw % 65536 == lsb as int + 256 * msb as int
  {
    var v := lsb as int + 256 * msb as int;
    if v >= 32768 then v - 65536 else v
  }

  /** DS18B20.GetTemp_Read: raw / 16. */
  function Ds18b20Celsius(scratchpad: seq<bv8>): (t: real)
    requires |scratchpad| >= 2
    ensures -2048.0 <= t <= 2047.9375
    ensures t < 0.0 <==> scratchpad[TemperatureMsb] & 0x80 != 0
    ensures 16.0 * t == Raw(scratchpad[TemperatureLsb], scratchpad[TemperatureMsb]) as real
  {
    Raw(scratchpad[TemperatureLsb], scratchpad[TemperatureMsb]) as real / 16.0
  }

  /** Only the two temperature bytes matter to the DS18B20 decoder. */
  lemma Ds18b20UsesTemperatureBytes(s: seq<bv8>, s': seq<bv8>)
    requires |s| >= 2 && |s'| >= 2 && s[0] == s'[0] && s[1] == s'[1]
    ensures Ds18b20Celsius(s) == Ds18b20Celsius(s')
  {
  }

  /** The conversions of the library's unit test. The test passes each
      register as (MSB, LSB); the scratchpads here hold them in scratchpad
      order, [LSB, MSB]. */
  lemma Ds18b20TestVectors()
    ensures Ds18b20Celsius([0xD0, 0x07]) == 125.0
    ensures Ds18b20Celsius([0x91, 0x01]) == 25.0625
    ensures Ds18b20Celsius([0xA2, 0x00]) == 10.125
    ensures Ds18b20Celsius([0x08, 0x00]) == 0.5
    ensures Ds18b20Celsius([0x00, 0x00]) == 0.0
    ensures Ds18b20Celsius([0xF8, 0xFF]) == -0.5
    ensures Ds18b20Celsius([0x5E, 0xFF]) == -10.125
    ensures Ds18b20Celsius([0x6F, 0xFE]) == -25.0625
    ensures Ds18b20Celsius([0x90, 0xFC]) == -55.0
  {
  }

  /** The power-on register value (LSB 0x50, MSB 0x05) decodes to 85 degrees:
      the DS18B20 decoder itself has no "no value" case for it. */
  lemma Ds18b20PowerOnValue()
    ensures Ds18b20Celsius([0x50, 0x05]) == 85.0
  {
  }

  /** DS18S20.GetTemp_Read: no value for the power-on register value,
      otherwise raw / 2 - 0.25 + (count_per_c - count_remain) / count_per_c,
      with the IEEE results of a division by a zero count_per_c. */
  function Ds18s20Reading(scratchpad: seq<bv8>): (r: Reading)
    requires |scratchpad| >= 8
    ensures r == NoValue <==> scratchpad[TemperatureLsb] == 0x50 && scratchpad[TemperatureMsb] == 0x05
    ensures r.Celsius? <==>
      !(scratchpad[TemperatureLsb] == 0x50 && scratchpad[TemperatureMsb] == 0x05) && scratchpad[CountPerC] != 0
  {
    var lsb, msb := scratchpad[TemperatureLsb], scratchpad[TemperatureMsb];
    var remain, perC := scratchpad[CountRemain] as real, scratchpad[CountPerC] as real;
    if lsb == 0x50 && msb == 0x05 then NoValue
    else if perC == 0.0 then (if remain == 0.0 then NotANumber else NegativeInfinity)
    else Celsius(Raw(lsb, msb) as real / 2.0 - 0.25 + (perC - remain) / perC)
  }

  /** A full count remaining cancels the correction: raw / 2 - 0.25. */
  lemma Ds18s20FullCount(s: seq<bv8>)
    requires |s| >= 8 && !(s[0] == 0x50 && s[1] == 0x05) && s[6] == s[7] && s[7] != 0
    ensures Ds18s20Reading(s) == Celsius(Raw(s[0], s[1]) as real / 2.0 - 0.25)
  {
  }

  /** No count remaining adds the whole degree: raw / 2 + 0.75. */
  lemma Ds18s20ZeroCount(s: seq<bv8>)
    requires |s| >= 8 && !(s[0] == 0x50 && s[1] == 0x05) && s[6] == 0 && s[7] != 0
    ensures Ds18s20Reading(s) == Celsius(Raw(s[0], s[1]) as real / 2.0 + 0.75)
  {
    var perC := s[7] as real;
    assert (perC - 0.0) / perC == 1.0;
  }

  /** When the count remaining does not exceed the count per degree, the
      corrected value lies within a degree of the half-degree reading: from
      0.25 below to 0.75 above. */
  lemma Ds18s20CorrectionBounds(s: seq<bv8>)
    requires |s| >= 8 && !(s[0] == 0x50 && s[1] == 0x05) && s[7] != 0 && s[6] <= s[7]
    ensures var half := Raw(s[0], s[1]) as real / 2.0;
      Ds18s20Reading(s).Celsius? &&
      half - 0.25 <= Ds18s20Reading(s).degrees <= half + 0.75
  {
    FractionBounds(s[7] as real - s[6] as real, s[7] as real);
  }

  lemma FractionBounds(a: real, b: real)
    requires 0.0 <= a <= b && b > 0.0
    ensures 0.0 <= a / b <= 1.0
  {
    assert a / b * b == a;
  }

  /** The power-on value is no value whatever the other bytes hold. */
  lemma Ds18s20PowerOnNoValue(s: seq<bv8>)
    requires |s| >= 8 && s[0] == 0x50 && s[1] == 0x05
    ensures Ds18s20Reading(s) == NoValue
  {
  }
}
