/**
  Readings of the telemetry source and the fail-soft choice of the reading
  that one dashboard request works with.
 */
module Readings {

  /** One sample: humidity and temperature are fixed-point integers scaled
      by ten (tenths of a percent, tenths of a degree); `time` is the clock
      value at which the reading was produced, kept opaque. */
  datatype Reading = Reading(time: int, humidity: int, temperature: int)
  {
    /** The value of one of the two tracked quantities. */
    function Value(q: Quantity): int {
      match q
      case Humidity => humidity
      case Temperature => temperature
    }
  }

  /** The two quantities the dashboard tracks. */
  datatype Quantity = Humidity | Temperature

  /** What the fetch of the telemetry endpoint gave back. `Payload` is a
      response whose body parsed as a JSON object (its integer fields, by
      name); `Failed` stands for everything that raises instead: timeout,
      connection error, a body that is not JSON, or JSON that is not an
      object. */
  datatype FetchResult = Payload(fields: map<string, int>) | Failed

  const HumidityKey: string := "humidity"
  const TemperatureKey: string := "temperature"

  /** A field of the payload, or 0 when the payload does not carry it. */
  function FieldOr0(fields: map<string, int>, key: string): (v: int)
    ensures key in fields ==> v == fields[key]
    ensures key !in fields ==> v == 0
  {
    if key in fields then fields[key] else 0
  }

  /** The reading a request works with, given what the fetch returned, the
      history as it stands before the request, and the current time.
      A successful fetch is taken field by field (a missing field reads as 0);
      a failed fetch repeats the values of the newest history entry, or reads
      0/0 when there is none. The failure is never passed on. */
  function GetReading(fetch: FetchResult, history: seq<Reading>, now: int): (r: Reading)
    ensures r.time == now
    ensures fetch.Payload? ==>
      (HumidityKey in fetch.fields ==> r.humidity == fetch.fields[HumidityKey]) &&
      (HumidityKey !in fetch.fields ==> r.humidity == 0) &&
      (TemperatureKey in fetch.fields ==> r.temperature == fetch.fields[TemperatureKey]) &&
      (TemperatureKey !in fetch.fields ==> r.temperature == 0)
    ensures fetch.Failed? && |history| > 0 ==>
      r.humidity == history[|history| - 1].humidity &&
      r.temperature == history[|history| - 1].temperature
    ensures fetch.Failed? && history == [] ==> r.humidity == 0 && r.temperature == 0
  {
    match fetch
    case Payload(fields) =>
      Reading(now, FieldOr0(fields, HumidityKey), FieldOr0(fields, TemperatureKey))
    case Failed =>
      if |history| > 0 then
        var last := history[|history| - 1];
        Reading(now, last.humidity, last.temperature)
      else
        Reading(now, 0, 0)
  }
}
