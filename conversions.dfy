/** Unit conversions between the scales the weather data uses. Each is one
    affine map with a positive scale factor, so each is strictly increasing
    and each pair is mutually inverse over exact reals. */
module Conversions {

  /** Degrees Celsius to degrees Fahrenheit; the reverse map recovers the input. */
  function CelsiusToFahrenheit(celsius: real): (fahrenheit: real)
    ensures FahrenheitToCelsius(fahrenheit) == celsius
  {
    (celsius * 9.0 / 5.0) + 32.0
  }

  /** Degrees Fahrenheit to degrees Celsius: below freezing on one scale is below
      freezing on the other, and the two scales agree only at -40. */
  function FahrenheitToCelsius(fahrenheit: real): (celsius: real)
    ensures celsius < 0.0 <==> fahrenheit < 32.0
    ensures celsius == fahrenheit <==> fahrenheit == -40.0
  {
    (fahrenheit - 32.0) * 5.0 / 9.0
  }

  /** Metres per second to kilometres per hour; the reverse map recovers the input. */
  function MpsToKmh(mps: real): (kmh: real)
    ensures KmhToMps(kmh) == mps
  {
    mps * 3.6
  }

  /** Kilometres per hour to metres per second: the sign is kept, and a speed in
      metres per second is never the larger number. */
  function KmhToMps(kmh: real): (mps: real)
    ensures mps < 0.0 <==> kmh < 0.0
    ensures kmh >= 0.0 ==> mps <= kmh
  {
    kmh / 3.6
  }

  /** Hectopascals to millimetres of mercury; the reverse map recovers the input. */
  function HpaToMmhg(hpa: real): (mmhg: real)
    ensures MmhgToHpa(mmhg) == hpa
  {
    hpa * 0.750062
  }

  /** Millimetres of mercury to hectopascals: the sign is kept, and a pressure in
      hectopascals is never the smaller number. */
  function MmhgToHpa(mmhg: real): (hpa: real)
    ensures hpa < 0.0 <==> mmhg < 0.0
    ensures mmhg >= 0.0 ==> hpa >= mmhg
  {
    mmhg / 0.750062
  }

  lemma TemperatureRoundTrip(c: real, f: real)
    ensures FahrenheitToCelsius(CelsiusToFahrenheit(c)) == c
    ensures CelsiusToFahrenheit(FahrenheitToCelsius(f)) == f
  {
  }

  lemma SpeedRoundTrip(v: real, w: real)
    ensures KmhToMps(MpsToKmh(v)) == v
    ensures MpsToKmh(KmhToMps(w)) == w
  {
  }

  lemma PressureRoundTrip(p: real, q: real)
    ensures MmhgToHpa(HpaToMmhg(p)) == p
    ensures HpaToMmhg(MmhgToHpa(q)) == q
  {
  }

  /** Every conversion preserves strict order. */
  lemma ConversionsIncreasing(a: real, b: real)
    requires a < b
    ensures CelsiusToFahrenheit(a) < CelsiusToFahrenheit(b)
    ensures FahrenheitToCelsius(a) < FahrenheitToCelsius(b)
    ensures MpsToKmh(a) < MpsToKmh(b)
    ensures KmhToMps(a) < KmhToMps(b)
    ensures HpaToMmhg(a) < HpaToMmhg(b)
    ensures MmhgToHpa(a) < MmhgToHpa(b)
  {
  }
}
