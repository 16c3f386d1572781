/** Conversion of raw Si7005 data words into physical values.

All arithmetic is exact rational arithmetic; the driver computes the same
formulas in single-precision floating point.
 */
module Calibration {

  /** The value every reading function returns when there is no measurement. */
  const INVALID_VALUE: real := -1000.0

  /** The largest answer a 16-bit register read can give. */
  const MAX_WORD: nat := 0xFFFF

  /** Temperature in degrees C of a data word: the upper 14 bits count 1/32 degree from -50. */
  function Temperature(raw: nat): (c: real)
    ensures c >= -50.0
    ensures (c + 50.0) * 32.0 == (raw / 4) as real
  {
    (raw / 4) as real / 32.0 - 50.0
  }

  /** Relative humidity in % of a data word before linearisation: the upper 12
      bits count 1/16 % from -24. */
  function RawHumidity(raw: nat): (h: real)
    ensures h >= -24.0
    ensures (h + 24.0) * 16.0 == (raw / 16) as real
    ensures raw <= MAX_WORD ==> h <= 231.9375
  {
    (raw / 16) as real / 16.0 - 24.0
  }

  /** The quadratic correction curve of the Si7005 datasheet, section 4.3. */
  function Correction(h: real): real {
    -0.00393 * (h * h) + 0.4008 * h - 4.7844
  }

  /** The correction of `h` along the datasheet curve. Whatever `h` is, the
      result stays above the vertex value of the curve (about -18.06), so a
      linearised humidity can never be mistaken for INVALID_VALUE. */
  function Linearize(h: real): (rh: real)
    ensures rh == h - Correction(h)
    ensures rh > -18.1
  {
    var v := 0.5992 / 0.00786;
    assert h - Correction(h) == 0.00393 * ((h + v) * (h + v)) + (4.7844 - 0.00393 * v * v);
    h - Correction(h)
  }

  /** The linearisation is strictly increasing for every humidity the chip
      can report (and indeed for every `h` at or above about -76.2, the vertex). */
  lemma LinearizeMonotone(h1: real, h2: real)
    requires -24.0 <= h1 <= h2
    ensures Linearize(h1) <= Linearize(h2)
    ensures h1 < h2 ==> Linearize(h1) < Linearize(h2)
  {
    assert Linearize(h2) - Linearize(h1) == (h2 - h1) * (0.00393 * (h1 + h2) + 0.5992);
    var d, k := h2 - h1, 0.00393 * (h1 + h2) + 0.5992;
    assert d >= 0.0 && k > 0.0;
    assert d * k >= 0.0;
    assert d > 0.0 ==> d * k > 0.0;
  }

  /** Linearised relative humidity in % of a data word. */
  function Humidity(raw: nat): (rh: real)
    ensures rh == Linearize(RawHumidity(raw))
    ensures rh >= Linearize(-24.0)
  {
    LinearizeMonotone(-24.0, RawHumidity(raw));
    Linearize(RawHumidity(raw))
  }

  /** Decoding of a data word of either kind; it never yields INVALID_VALUE. */
  function Decode(raw: nat, temp: bool): (v: real)
    ensures v != INVALID_VALUE
    ensures temp ==> v == Temperature(raw)
    ensures !temp ==> v == Humidity(raw)
  {
    if temp then Temperature(raw) else Humidity(raw)
  }

  /** Temperature compensation of a linearised humidity reading. At the
      reference temperature of 30 C the reading is unchanged; elsewhere it is
      scaled and shifted by amounts proportional to the distance from 30 C. */
  function RhTcomp(rh: real, temp: real): (c: real)
    ensures temp == 30.0 ==> c == rh
    ensures c == rh * (1.0 + 0.00237 * (temp - 30.0)) + 0.1973 * (temp - 30.0)
  {
    rh + (temp - 30.0) * (0.00237 * rh + 0.1973)
  }

  /** Compensation is undone by solving the affine map for `rh`: two readings
      taken at the same temperature compensate to the same value only if they
      were equal, whenever the scale factor is not zero. */
  lemma RhTcompInverse(rh: real, temp: real)
    requires 1.0 + 0.00237 * (temp - 30.0) != 0.0
    ensures (RhTcomp(rh, temp) - 0.1973 * (temp - 30.0)) / (1.0 + 0.00237 * (temp - 30.0)) == rh
  {
    var k := 1.0 + 0.00237 * (temp - 30.0);
    assert RhTcomp(rh, temp) - 0.1973 * (temp - 30.0) == rh * k;
  }

  /** The compensated value is strictly increasing in the temperature for any
      reading at or above the least value the linearisation can produce. */
  lemma RhTcompMonotoneInTemp(rh: real, t1: real, t2: real)
    requires rh >= -18.1 && t1 <= t2
    ensures RhTcomp(rh, t1) <= RhTcomp(rh, t2)
    ensures t1 < t2 ==> RhTcomp(rh, t1) < RhTcomp(rh, t2)
  {
    assert RhTcomp(rh, t2) - RhTcomp(rh, t1) == (t2 - t1) * (0.00237 * rh + 0.1973);
    assert 0.00237 * rh + 0.1973 > 0.0;
    assert t1 < t2 ==> (t2 - t1) * (0.00237 * rh + 0.1973) > 0.0;
  }

  /** Both decodings are monotone in the data word. */
  lemma DecodeMonotone(raw1: nat, raw2: nat)
    requires raw1 <= raw2
    ensures Temperature(raw1) <= Temperature(raw2)
    ensures Humidity(raw1) <= Humidity(raw2)
  {
    assert raw1 / 4 <= raw2 / 4;
    assert raw1 / 16 <= raw2 / 16;
    LinearizeMonotone(RawHumidity(raw1), RawHumidity(raw2));
  }

  /** The two low bits of a temperature word (and the four low bits of a
      humidity word) are status bits and do not affect the value. */
  lemma DecodeIgnoresLowBits(raw: nat)
    ensures Temperature(raw) == Temperature(raw - raw % 4)
    ensures Humidity(raw) == Humidity(raw - raw % 16)
  {
    assert (raw - raw % 4) / 4 == raw / 4;
    assert (raw - raw % 16) / 16 == raw / 16;
  }

  /** Round trip: a 14-bit temperature code placed in the upper bits of a data
      word decodes to code/32 - 50, and the code is recovered from the value. */
  lemma TemperatureRoundTrip(code: nat, low: nat)
    requires code < 0x4000 && low < 4
    ensures Temperature(code * 4 + low) == code as real / 32.0 - 50.0
    ensures ((Temperature(code * 4 + low) + 50.0) * 32.0).Floor == code
  {
    assert (code * 4 + low) / 4 == code;
  }

  /** Sample decodings: the lowest word is -50 C, and each step of 128 in the
      word (32 in the upper 14 bits) is one degree. */
  lemma TemperatureSamples()
    ensures Temperature(0) == -50.0
    ensures Temperature(3200) == -25.0
    ensures Temperature(3328) == -24.0
    ensures Temperature(0x3200) == 50.0
  {
  }

  /** Every humidity a 16-bit data word can encode lies in a fixed band. */
  lemma HumidityRange(raw: nat)
    requires raw <= MAX_WORD
    ensures Linearize(-24.0) <= Humidity(raw) <= Linearize(231.9375)
    ensures Linearize(-24.0) == -7.33272
    ensures Linearize(231.9375) == 355.1757153515625
  {
    LinearizeMonotone(RawHumidity(raw), 231.9375);
  }

  /** Compensation of any reading at or above the least linearised humidity,
      at any temperature the chip can report, stays above -24. */
  lemma CompensationBound(rh: real, t: real)
    requires rh >= -7.34 && t >= -50.0
    ensures RhTcomp(rh, t) > -24.0
  {
    var d := t - 30.0;
    if d >= 0.0 {
      var k := 0.00237 * rh + 0.1973;
      assert k > 0.0;
      assert d * k >= 0.0;
    } else {
      var f := 1.0 + 0.00237 * d;
      assert 0.8 < f <= 1.0;
      assert RhTcomp(rh, t) == rh * f + 0.1973 * d;
      ShrunkAbove(rh, f);
    }
  }

  /** Scaling by a factor in [0, 1] brings a value no lower than zero or itself. */
  lemma ShrunkAbove(x: real, f: real)
    requires 0.0 <= f <= 1.0
    ensures x * f >= x || x * f >= 0.0
  {
  }

  /** A compensated humidity computed from any two data words stays far away
      from INVALID_VALUE, so the blocking humidity read never returns a real
      measurement that looks like a failure. */
  lemma CompensatedNeverInvalid(tempRaw: nat, rhRaw: nat)
    ensures RhTcomp(Humidity(rhRaw), Temperature(tempRaw)) > -24.0
  {
    CompensationBound(Humidity(rhRaw), Temperature(tempRaw));
  }
}
