/**
 The summary of one month of readings. It is built from statistics computed over the
 raw readings plus two per-day maps (day of month to that day's high, and to that
 day's low), from which it derives the average high, the average low, the lowest high
 ("coldest day") and the highest low ("warmest night").
 */
module MonthStatistics {
  import opened Options
  import opened Aggregates
  import opened Calendar

  /** One entry of a `Map<Integer, Double>`: a day of the month and a temperature. */
  datatype DayTemp = DayTemp(day: int, temp: real)

  /** The entries of a `TreeMap<Integer, Double>`: days strictly ascending, so no day occurs twice. */
  predicate IsDayMap(m: seq<DayTemp>) {
    forall i, j :: 0 <= i < j < |m| ==> m[i].day < m[j].day
  }

  /** The temperatures of a map's entries, in iteration order. */
  function Temps(m: seq<DayTemp>): (ts: seq<real>)
    ensures |ts| == |m|
    ensures forall i :: 0 <= i < |m| ==> ts[i] == m[i].temp
  {
    seq(|m|, i requires 0 <= i < |m| => m[i].temp)
  }

  /** `getAverageTemp(map)`: the mean of the map's temperatures, or 0.0 for an empty map. */
  function AverageTemp(source: seq<DayTemp>): (r: real)
    ensures |source| == 0 ==> r == 0.0
    ensures |source| > 0 ==> r == Sum(Temps(source)) / (|source| as real)
  {
    match StreamAverage(Temps(source))
    case Some(v) => v
    case None => 0.0
  }

  /** `getMaxTemp(map)`: one of the map's temperatures that no other exceeds, or 0.0 for an empty map. */
  function MaxTemp(source: seq<DayTemp>): (r: real)
    ensures |source| == 0 ==> r == 0.0
    ensures |source| > 0 ==> exists i :: 0 <= i < |source| && source[i].temp == r
    ensures forall i :: 0 <= i < |source| ==> source[i].temp <= r
  {
    match StreamMax(Temps(source))
    case Some(v) => v
    case None => 0.0
  }

  /** `getMinTemp(map)`: one of the map's temperatures that none undercuts, or 0.0 for an empty map. */
  function MinTemp(source: seq<DayTemp>): (r: real)
    ensures |source| == 0 ==> r == 0.0
    ensures |source| > 0 ==> exists i :: 0 <= i < |source| && source[i].temp == r
    ensures forall i :: 0 <= i < |source| ==> r <= source[i].temp
  {
    match StreamMin(Temps(source))
    case Some(v) => v
    case None => 0.0
  }

  /** The average of a non-empty map lies between its minimum and its maximum. */
  lemma AverageWithinExtremes(source: seq<DayTemp>)
    requires |source| > 0
    ensures MinTemp(source) <= AverageTemp(source) <= MaxTemp(source)
  {
    MeanWithin(Temps(source), MinTemp(source), MaxTemp(source));
  }

  /** A month's statistics. The selectors `month` and `year` are `getMonth()` and `getYear()`. */
  datatype MonthStats = MonthStats(
    minimumTemp: real, maximumTemp: real, averageTemp: real,
    averageHigh: real, averageLow: real, lowestHigh: real, highestLow: real,
    highTemps: seq<DayTemp>, lowTemps: seq<DayTemp>,
    minimumHumidity: int, maximumHumidity: int, averageHumidity: real,
    month: Month, year: int)

  /** The derived fields agree with the per-day maps they were derived from. */
  predicate Derived(s: MonthStats) {
    && s.averageHigh == AverageTemp(s.highTemps)
    && s.averageLow == AverageTemp(s.lowTemps)
    && s.lowestHigh == MinTemp(s.highTemps)
    && s.highestLow == MaxTemp(s.lowTemps)
  }

  /**
   The constructor: stores every argument unchanged and derives the average of the
   highs, the average of the lows, the lowest high and the highest low.
   */
  function Build(minT: real, maxT: real, avgT: real, highTs: seq<DayTemp>, lowTs: seq<DayTemp>,
                 minH: int, maxH: int, avgH: real, month: Month, year: int): (s: MonthStats)
    requires IsDayMap(highTs) && IsDayMap(lowTs)
    ensures s.minimumTemp == minT && s.maximumTemp == maxT && s.averageTemp == avgT
    ensures s.highTemps == highTs && s.lowTemps == lowTs
    ensures s.minimumHumidity == minH && s.maximumHumidity == maxH && s.averageHumidity == avgH
    ensures s.month == month && s.year == year
    ensures Derived(s)
    // the coldest day: a day's high that no other day's high undercuts
    ensures |highTs| > 0 ==> exists i :: 0 <= i < |highTs| && highTs[i].temp == s.lowestHigh
    ensures forall i :: 0 <= i < |highTs| ==> s.lowestHigh <= highTs[i].temp
    // the warmest night: a day's low that no other day's low exceeds
    ensures |lowTs| > 0 ==> exists i :: 0 <= i < |lowTs| && lowTs[i].temp == s.highestLow
    ensures forall i :: 0 <= i < |lowTs| ==> lowTs[i].temp <= s.highestLow
    ensures |highTs| > 0 ==> s.averageHigh == Sum(Temps(highTs)) / (|highTs| as real)
    ensures |lowTs| > 0 ==> s.averageLow == Sum(Temps(lowTs)) / (|lowTs| as real)
    ensures |highTs| == 0 ==> s.averageHigh == 0.0 && s.lowestHigh == 0.0
    ensures |lowTs| == 0 ==> s.averageLow == 0.0 && s.highestLow == 0.0
  {
    MonthStats(minT, maxT, avgT,
               AverageTemp(highTs), AverageTemp(lowTs), MinTemp(highTs), MaxTemp(lowTs),
               highTs, lowTs, minH, maxH, avgH, month, year)
  }

  /** The coldest day's high never exceeds the average high, and the warmest night's low is never below the average low. */
  lemma DerivedOrdering(s: MonthStats)
    requires Derived(s)
    ensures |s.highTemps| > 0 ==> s.lowestHigh <= s.averageHigh
    ensures |s.lowTemps| > 0 ==> s.averageLow <= s.highestLow
  {
    if |s.highTemps| > 0 {
      AverageWithinExtremes(s.highTemps);
    }
    if |s.lowTemps| > 0 {
      AverageWithinExtremes(s.lowTemps);
    }
  }

  /** Highs of 10.0 and 20.0 on two days average 15.0, and 10.0 is the coldest day. */
  lemma TwoDayHighs()
    ensures var s := Build(0.0, 0.0, 0.0, [DayTemp(1, 10.0), DayTemp(2, 20.0)], [],
                           0, 0, 0.0, JANUARY, 2023);
            s.averageHigh == 15.0 && s.lowestHigh == 10.0
  {
    var highs := [DayTemp(1, 10.0), DayTemp(2, 20.0)];
    assert Temps(highs) == [10.0, 20.0];
    assert Sum([10.0, 20.0]) == 30.0;
  }
}
