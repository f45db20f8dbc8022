/**
 * The compensation formulas of the Temperature, Pressure and Humidity
 * properties (BME280Driver.cs), evaluated over exact reals: the guard and
 * clamp structure is the source's, the rounding of `float` and `double` is
 * not modelled.
 */
module Compensation {
  import opened Calibration

  const TemperatureMin: real := -40.0
  const TemperatureMax: real := 85.0
  const PressureMin: real := 30000.0
  const PressureMax: real := 110000.0
  const HumidityMin: real := 0.0
  const HumidityMax: real := 100.0

  /** `x` limited to `[lo, hi]`. */
  function Clamp(x: real, lo: real, hi: real): (r: real)
    requires lo <= hi
    ensures lo <= r <= hi
    ensures lo <= x <= hi ==> r == x
    ensures x < lo ==> r == lo
    ensures x > hi ==> r == hi
  {
    if x < lo then lo else if x > hi then hi else x
  }

  /** Degrees Celsius: the fine temperature over 5120, clamped to [-40, 85]. */
  function Temperature(tFine: int): (t: real)
    ensures TemperatureMin <= t <= TemperatureMax
  {
    Clamp(tFine as real / 5120.0, TemperatureMin, TemperatureMax)
  }

  /** The value of `var1` that the pressure formula divides by (line 265). */
  function PressureDivisor(tFine: int, c: Coefficients): real
  {
    var v1 := tFine as real / 2.0 - 64000.0;
    var v3 := c.p3 as real * v1 * v1 / 524288.0;
    var v1b := (v3 + c.p2 as real * v1) / 524288.0;
    (1.0 + v1b / 32768.0) * c.p1 as real
  }

  /** The pressure in pascals before clamping; defined only when the divisor is positive. */
  function UnclampedPressure(tFine: int, rawPressure: int, c: Coefficients): real
    requires PressureDivisor(tFine, c) > 0.0
  {
    var v1 := tFine as real / 2.0 - 64000.0;
    var v2 := v1 * v1 * c.p6 as real / 32768.0;
    var v2b := v2 + v1 * c.p5 as real * 2.0;
    var v2c := v2b / 4.0 + c.p4 as real * 65536.0;
    var p := 1048576.0 - rawPressure as real;
    var p1 := (p - v2c / 4096.0) * 6250.0 / PressureDivisor(tFine, c);
    var w1 := c.p9 as real * p1 * p1 / 2147483648.0;
    var w2 := p1 * c.p8 as real / 32768.0;
    p1 + (w1 + w2 + c.p7 as real) / 16.0
  }

  /**
   * Pascals: the minimum 30000 when the divisor is not positive (no
   * division happens), otherwise the formula clamped to [30000, 110000].
   */
  function Pressure(tFine: int, rawPressure: int, c: Coefficients): (p: real)
    ensures PressureMin <= p <= PressureMax
    ensures PressureDivisor(tFine, c) <= 0.0 ==> p == PressureMin
    ensures PressureDivisor(tFine, c) > 0.0 ==>
              p == Clamp(UnclampedPressure(tFine, rawPressure, c), PressureMin, PressureMax)
  {
    if PressureDivisor(tFine, c) > 0.0 then
      Clamp(UnclampedPressure(tFine, rawPressure, c), PressureMin, PressureMax)
    else
      PressureMin
  }

  /** Relative humidity in percent before clamping. */
  function UnclampedHumidity(tFine: int, rawHumidity: int, c: Coefficients): real
  {
    var v1 := tFine as real - 76800.0;
    var v2 := c.h4 as real * 64.0 + c.h5 as real / 16384.0 * v1;
    var v3 := rawHumidity as real - v2;
    var v4 := c.h2 as real / 65536.0;
    var v5 := 1.0 + c.h3 as real / 67108864.0 * v1;
    var v6 := 1.0 + c.h6 as real / 67108864.0 * v1 * v5;
    var v6b := v3 * v4 * (v5 * v6);
    v6b * (1.0 - c.h1 as real * v6b / 524288.0)
  }

  /** Percent, clamped to [0, 100]. */
  function Humidity(tFine: int, rawHumidity: int, c: Coefficients): (h: real)
    ensures HumidityMin <= h <= HumidityMax
  {
    Clamp(UnclampedHumidity(tFine, rawHumidity, c), HumidityMin, HumidityMax)
  }

  /** Inside [-40, 85] degrees the temperature is exactly the fine temperature over 5120. */
  lemma TemperatureInRange(tFine: int)
    requires -204800 <= tFine <= 435200
    ensures Temperature(tFine) == tFine as real / 5120.0
  {
  }

  /** Below -40 degrees the temperature reads -40; above 85 it reads 85. */
  lemma TemperatureSaturates(tFine: int)
    ensures tFine < -204800 ==> Temperature(tFine) == TemperatureMin
    ensures tFine > 435200 ==> Temperature(tFine) == TemperatureMax
  {
  }
}
