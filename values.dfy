/** The conversions of `readTemperature` and `readHumidity`: payload bytes
    to signed tenths of a degree Celsius and of a percent. */
module Values {
  import opened Types

  /** `((hi & 0x7F) << 8) | lo`: the low 15 bits of the big-endian pair. */
  function Magnitude(hi: Byte, lo: Byte): (v: nat)
    ensures v <= 0x7FFF
  {
    (hi % 0x80) * 0x100 + lo
  }

  /** `readTemperature` on a successful read: sign and magnitude, bit 7 of
      `hi` being the sign. A set sign bit with magnitude 0 gives 0. */
  function Temperature(hi: Byte, lo: Byte): (t: Int16)
    ensures -0x7FFF <= t <= 0x7FFF
    ensures t < 0 ==> hi >= 0x80
    ensures t > 0 ==> hi < 0x80
  {
    var m: int := Magnitude(hi, lo);
    if hi >= 0x80 then -m else m
  }

  /** The absolute value of the temperature is the magnitude field. */
  lemma TemperatureMagnitude(hi: Byte, lo: Byte)
    ensures var t := Temperature(hi, lo); (if t < 0 then -t else t) == Magnitude(hi, lo)
  {
  }

  /** The bytes a sensor sends for the temperature `t`. */
  function EncodeTemperature(t: int): (p: (Byte, Byte))
    requires -0x7FFF <= t <= 0x7FFF
    ensures t < 0 <==> p.0 >= 0x80
  {
    var m := if t < 0 then -t else t;
    ((if t < 0 then 0x80 else 0) + m / 0x100, m % 0x100)
  }

  /** Every representable temperature survives a send and a read. */
  lemma TemperatureRoundTrip(t: int)
    requires -0x7FFF <= t <= 0x7FFF
    ensures var p := EncodeTemperature(t); Temperature(p.0, p.1) == t
  {
    var m := if t < 0 then -t else t;
    var p := EncodeTemperature(t);
    assert p.0 % 0x80 == m / 0x100;
  }

  /** Every byte pair except "negative zero" (0x80, 0x00) is the encoding of
      the temperature it decodes to; negative zero decodes to 0. */
  lemma TemperatureBytesRoundTrip(hi: Byte, lo: Byte)
    ensures (hi, lo) != (0x80, 0x00) ==> EncodeTemperature(Temperature(hi, lo)) == (hi, lo)
    ensures Temperature(0x80, 0x00) == 0
  {
    var m := Magnitude(hi, lo);
    assert m / 0x100 == hi % 0x80 && m % 0x100 == lo;
  }

  /** The conversion of an `int` in 0..0xFFFF to `int16_t`: values from
      0x8000 up wrap to negative numbers. */
  function ToInt16(x: nat): (r: Int16)
    requires x < 0x10000
    ensures r % 0x10000 == x
    ensures r < 0 <==> x >= 0x8000
  {
    if x >= 0x8000 then x - 0x10000 else x
  }

  /** `readHumidity` on a successful read: `(hi << 8) | lo` as `int16_t`. */
  function Humidity(hi: Byte, lo: Byte): (h: Int16)
    ensures h % 0x10000 == hi * 0x100 + lo
  {
    ToInt16(hi * 0x100 + lo)
  }

  /** The bytes a sensor sends for the humidity `h`. */
  function EncodeHumidity(h: Int16): (p: (Byte, Byte))
    ensures p.0 * 0x100 + p.1 == h % 0x10000
  {
    var u := h % 0x10000;
    (u / 0x100, u % 0x100)
  }

  /** Humidity is a bijection between byte pairs and 16-bit values. */
  lemma HumidityRoundTrip(h: Int16)
    ensures var p := EncodeHumidity(h); Humidity(p.0, p.1) == h
  {
  }

  lemma HumidityBytesRoundTrip(hi: Byte, lo: Byte)
    ensures EncodeHumidity(Humidity(hi, lo)) == (hi, lo)
  {
  }

  /** Valid readings that the application cannot tell from the error value:
      -0.1 degrees and humidity bytes FF FF. */
  lemma SentinelCollisions()
    ensures Temperature(0x80, 0x01) == Sentinel
    ensures Humidity(0xFF, 0xFF) == Sentinel
  {
  }

  /** Worked examples: 40.0 % and 20.0 degrees, and -20.0 degrees with the
      sign bit set. */
  lemma ExampleReadings()
    ensures Humidity(0x01, 0x90) == 400 && Temperature(0x00, 0xC8) == 200
    ensures Temperature(0x80, 0xC8) == -200
    ensures Humidity(0x02, 0x8D) == 653 && Temperature(0x00, 0xE7) == 231
  {
  }
}
