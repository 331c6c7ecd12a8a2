/**
 One reading of an outdoor weather station: when it was taken, the temperature and
 the relative humidity. A `Reading` is an immutable value; the only way the station
 code makes one is from the three text columns of an export row.
 */
module Readings {
  import opened Options
  import opened Numerals
  import opened Calendar

  /** `getTimestamp()`, `getTemperature()` and `getHumidity()` are the field selectors. */
  datatype Reading = Reading(timestamp: Timestamp, temperature: real, humidity: int)

  /** `getDay()`: the day of the month of the timestamp, whatever the time of day. */
  function Day(r: Reading): (d: int)
    ensures 1 <= d <= DaysInMonth(r.timestamp.year, r.timestamp.month)
  {
    r.timestamp.day
  }

  /**
   `new Reading(ts, temp, hum)`: the timestamp is read with the fixed pattern, the
   temperature with `Double.parseDouble` and the humidity with `Integer.parseInt`;
   if any of the three fails, construction fails.
   */
  function ParseReading(ts: string, temp: string, hum: string): (r: Option<Reading>)
    ensures r.Some? <==> ParseTimestamp(ts).Some? && ParseDouble(temp).Some? && ParseInt(hum).Some?
    ensures r.Some? ==>
              && ParseTimestamp(ts) == Some(r.value.timestamp)
              && ParseDouble(temp) == Some(r.value.temperature)
              && ParseInt(hum) == Some(r.value.humidity)
  {
    var t, x, h := ParseTimestamp(ts), ParseDouble(temp), ParseInt(hum);
    if t.Some? && x.Some? && h.Some? then Some(Reading(t.value, x.value, h.value)) else None
  }

  /**
   What construction accepts and what it stores: it succeeds exactly when all three
   columns parse; the stored timestamp is the one the text spells, and the stored
   temperature and humidity are the parsed values, the humidity within `int` range.
   */
  lemma ParseReadingSpec(ts: string, temp: string, hum: string)
    ensures ParseReading(ts, temp, hum).Some?
        <==> ParseTimestamp(ts).Some? && ParseDouble(temp).Some? && ParseInt(hum).Some?
    ensures ParseReading(ts, temp, hum).Some? ==>
              var r := ParseReading(ts, temp, hum).value;
              && FormatTimestamp(r.timestamp) == ts
              && ParseDouble(temp) == Some(r.temperature)
              && ParseInt(hum) == Some(r.humidity)
              && INT_MIN <= r.humidity <= INT_MAX
  {
    hide ParseTimestamp, ParseDouble, ParseInt;
    if ParseTimestamp(ts).Some? {
      FormatParseTimestamp(ts);
    }
  }

  /**
   A reading survives being written out as export text and read back: timestamp,
   temperature and humidity come back exactly as they were.
   */
  lemma ParseReadingRoundTrip(t: Timestamp, units: int, scale: nat, humidity: int)
    requires 1 <= t.year <= 9999
    requires INT_MIN <= humidity <= INT_MAX
    ensures ParseReading(FormatTimestamp(t), FormatFixed(units, scale), IntToString(humidity))
         == Some(Reading(t, (units as real) / (Pow10(scale) as real), humidity))
  {
    ParseFormatTimestamp(t);
    ParseFormatFixed(units, scale);
    ParseIntToString(humidity);
  }

  /** Two readings taken on the same calendar date fall on the same day, whatever their times. */
  lemma SameDateSameDay(a: Reading, b: Reading)
    requires a.timestamp.year == b.timestamp.year && a.timestamp.month == b.timestamp.month
    requires a.timestamp.day == b.timestamp.day
    ensures Day(a) == Day(b)
  {
  }
}
