/** Projections of a measurement series onto one of its fields. */
module Utils {
  import opened Common

  /** One weather measurement (the C++ `Measurement` record). */
  datatype Measurement = Measurement(
    temperatureCelsius: real,
    humidityPercent: real,
    pressureHpa: real,
    windSpeedMps: real)

  /** `extractTemperatures`: the temperatures of the series, in order. */
  method ExtractTemperatures(series: seq<Measurement>) returns (temps: Vector)
    ensures |temps| == |series|
    ensures forall i :: 0 <= i < |series| ==> temps[i] == series[i].temperatureCelsius
  {
    temps := [];
    for i := 0 to |series|
      invariant |temps| == i
      invariant forall j :: 0 <= j < i ==> temps[j] == series[j].temperatureCelsius
    {
      temps := temps + [series[i].temperatureCelsius];
    }
  }

  /** `extractHumidities`: the relative humidities of the series, in order. */
  method ExtractHumidities(series: seq<Measurement>) returns (hums: Vector)
    ensures |hums| == |series|
    ensures forall i :: 0 <= i < |series| ==> hums[i] == series[i].humidityPercent
  {
    hums := [];
    for i := 0 to |series|
      invariant |hums| == i
      invariant forall j :: 0 <= j < i ==> hums[j] == series[j].humidityPercent
    {
      hums := hums + [series[i].humidityPercent];
    }
  }
}
