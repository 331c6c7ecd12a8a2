/**
 The aggregation pipeline that turns one month of station readings into a
 `MonthStats`: reducers over readings, grouping by day of month, the per-day high
 and low maps, assembly of the month summary, and the year-then-month order in which
 summaries are reported.
 */
module WeatherDataLoader {
  import opened Options
  import opened Aggregates
  import opened Calendar
  import opened Readings
  import MonthStatistics

  type DayTemp = MonthStatistics.DayTemp
  type MonthStats = MonthStatistics.MonthStats

  // ---------------------------------------------------------------------------
  // Reducers over readings

  /** The temperatures of the readings, in order (`mapToDouble(Reading::getTemperature)`). */
  function Temperatures(rs: seq<Reading>): (ts: seq<real>)
    ensures |ts| == |rs|
    ensures forall i :: 0 <= i < |rs| ==> ts[i] == rs[i].temperature
  {
    seq(|rs|, i requires 0 <= i < |rs| => rs[i].temperature)
  }

  /** The humidities of the readings, in order (`mapToInt(Reading::getHumidity)`). */
  function Humidities(rs: seq<Reading>): (hs: seq<int>)
    ensures |hs| == |rs|
    ensures forall i :: 0 <= i < |rs| ==> hs[i] == rs[i].humidity
  {
    seq(|rs|, i requires 0 <= i < |rs| => rs[i].humidity)
  }

  /** `getHighestTemp`: some reading's temperature that no reading exceeds, or 0.0 without readings. */
  function HighestTemp(rs: seq<Reading>): (r: real)
    ensures |rs| == 0 ==> r == 0.0
    ensures |rs| > 0 ==> exists i :: 0 <= i < |rs| && rs[i].temperature == r
    ensures forall i :: 0 <= i < |rs| ==> rs[i].temperature <= r
  {
    match StreamMax(Temperatures(rs))
    case Some(v) => v
    case None => 0.0
  }

  /** `getLowestTemp`: some reading's temperature that no reading undercuts, or 0.0 without readings. */
  function LowestTemp(rs: seq<Reading>): (r: real)
    ensures |rs| == 0 ==> r == 0.0
    ensures |rs| > 0 ==> exists i :: 0 <= i < |rs| && rs[i].temperature == r
    ensures forall i :: 0 <= i < |rs| ==> r <= rs[i].temperature
  {
    match StreamMin(Temperatures(rs))
    case Some(v) => v
    case None => 0.0
  }

  /**
   `getAverageTemp`: the mean over every individual reading (not a blend of the
   extremes), or 0.0 without readings.
   */
  function AverageTemp(rs: seq<Reading>): (r: real)
    ensures |rs| == 0 ==> r == 0.0
    ensures |rs| > 0 ==> r == Sum(Temperatures(rs)) / (|rs| as real)
  {
    match StreamAverage(Temperatures(rs))
    case Some(v) => v
    case None => 0.0
  }

  /** `getHighestHumidity`: some reading's humidity that no reading exceeds, or 0 without readings. */
  function HighestHumidity(rs: seq<Reading>): (r: int)
    ensures |rs| == 0 ==> r == 0
    ensures |rs| > 0 ==> exists i :: 0 <= i < |rs| && rs[i].humidity == r
    ensures forall i :: 0 <= i < |rs| ==> rs[i].humidity <= r
  {
    match IntStreamMax(Humidities(rs))
    case Some(v) => v
    case None => 0
  }

  /** `getLowestHumidity`: some reading's humidity that no reading undercuts, or 0 without readings. */
  function LowestHumidity(rs: seq<Reading>): (r: int)
    ensures |rs| == 0 ==> r == 0
    ensures |rs| > 0 ==> exists i :: 0 <= i < |rs| && rs[i].humidity == r
    ensures forall i :: 0 <= i < |rs| ==> r <= rs[i].humidity
  {
    match IntStreamMin(Humidities(rs))
    case Some(v) => v
    case None => 0
  }

  /** `getAverageHumidity`: the integer sum of the humidities over their count, as a real, or 0.0 without readings. */
  function AverageHumidity(rs: seq<Reading>): (r: real)
    ensures |rs| == 0 ==> r == 0.0
    ensures |rs| > 0 ==> r == (IntSum(Humidities(rs)) as real) / (|rs| as real)
  {
    match IntStreamAverage(Humidities(rs))
    case Some(v) => v
    case None => 0.0
  }

  /** For readings, the average temperature lies between the lowest and the highest. */
  lemma AverageTempWithin(rs: seq<Reading>)
    requires |rs| > 0
    ensures LowestTemp(rs) <= AverageTemp(rs) <= HighestTemp(rs)
  {
    MeanWithin(Temperatures(rs), LowestTemp(rs), HighestTemp(rs));
  }

  /** For readings, the average humidity lies between the lowest and the highest. */
  lemma AverageHumidityWithin(rs: seq<Reading>)
    requires |rs| > 0
    ensures LowestHumidity(rs) as real <= AverageHumidity(rs) <= HighestHumidity(rs) as real
  {
    IntMeanWithin(Humidities(rs), LowestHumidity(rs), HighestHumidity(rs));
  }

  /** On any list of readings, even an empty one, the lowest temperature does not exceed the highest. */
  lemma LowestNotAboveHighest(rs: seq<Reading>)
    ensures LowestTemp(rs) <= HighestTemp(rs)
  {
    if |rs| > 0 {
      var i :| 0 <= i < |rs| && rs[i].temperature == LowestTemp(rs);
    }
  }

  // ---------------------------------------------------------------------------
  // Grouping by day

  /** The readings taken on day `d` of the month, in input order. */
  function ReadingsOn(rs: seq<Reading>, d: int): seq<Reading>
  {
    if |rs| == 0 then [] else (if Day(rs[0]) == d then [rs[0]] else []) + ReadingsOn(rs[1..], d)
  }

  /** Filtering a sequence extended by one reading extends the filtered sequence accordingly. */
  lemma {:induction false} ReadingsOnSnoc(rs: seq<Reading>, r: Reading, d: int)
    ensures ReadingsOn(rs + [r], d) == ReadingsOn(rs, d) + (if Day(r) == d then [r] else [])
  {
    if |rs| > 0 {
      assert (rs + [r])[1..] == rs[1..] + [r];
      ReadingsOnSnoc(rs[1..], r, d);
    } else {
      assert (rs + [r])[1..] == [];
    }
  }

  /** Without a reading taken on day `d`, nothing is filed under it. */
  lemma {:induction false} ReadingsOnAbsent(rs: seq<Reading>, d: int)
    requires forall i :: 0 <= i < |rs| ==> Day(rs[i]) != d
    ensures ReadingsOn(rs, d) == []
  {
    if |rs| > 0 {
      ReadingsOnAbsent(rs[1..], d);
    }
  }

  /** Every reading filed under day `d` is one of the input readings and was taken on day `d`. */
  lemma {:induction false} ReadingsOnMembers(rs: seq<Reading>, d: int)
    ensures forall x :: x in ReadingsOn(rs, d) ==> x in rs && Day(x) == d
  {
    if |rs| > 0 {
      ReadingsOnMembers(rs[1..], d);
    }
  }

  /** Every input reading is filed under its own day. */
  lemma {:induction false} ReadingsOnContains(rs: seq<Reading>, i: int)
    requires 0 <= i < |rs|
    ensures rs[i] in ReadingsOn(rs, Day(rs[i]))
  {
    if i > 0 {
      ReadingsOnContains(rs[1..], i - 1);
    }
  }

  /**
   `getReadingsByDay` (`Collectors.groupingBy(Reading::getDay)`): each reading in turn
   is appended to the list of its day, the list being created on first use.
   The keys are exactly the days that occur, no list is empty, and the list of day `d`
   holds exactly the readings taken on day `d`, in input order.
   */
  function ReadingsByDay(rs: seq<Reading>): (m: map<int, seq<Reading>>)
    ensures forall d :: d in m ==> m[d] == ReadingsOn(rs, d) && |m[d]| > 0
    ensures forall d :: d in m <==> exists i :: 0 <= i < |rs| && Day(rs[i]) == d
  {
    if |rs| == 0 then map[]
    else
      var init, r := rs[..|rs| - 1], rs[|rs| - 1];
      assert rs == init + [r];
      var prior := ReadingsByDay(init);
      var m := if Day(r) in prior then prior[Day(r) := prior[Day(r)] + [r]] else prior[Day(r) := [r]];
      FileLast(init, r, prior, m);
      m
  }

  /** Filing one more reading under its day extends a grouping of the others to a grouping of all. */
  lemma FileLast(init: seq<Reading>, r: Reading, prior: map<int, seq<Reading>>, m: map<int, seq<Reading>>)
    requires forall d :: d in prior ==> prior[d] == ReadingsOn(init, d) && |prior[d]| > 0
    requires forall d :: d in prior <==> exists i :: 0 <= i < |init| && Day(init[i]) == d
    requires m == if Day(r) in prior then prior[Day(r) := prior[Day(r)] + [r]] else prior[Day(r) := [r]]
    ensures forall d :: d in m ==> m[d] == ReadingsOn(init + [r], d) && |m[d]| > 0
    ensures forall d :: d in m <==> exists i :: 0 <= i < |init + [r]| && Day((init + [r])[i]) == d
  {
    var rs := init + [r];
    forall d | d in m
      ensures m[d] == ReadingsOn(rs, d) && |m[d]| > 0
    {
      ReadingsOnSnoc(init, r, d);
      if d == Day(r) && Day(r) !in prior {
        ReadingsOnAbsent(init, d);
      }
    }
    forall d
      ensures d in m <==> exists i :: 0 <= i < |rs| && Day(rs[i]) == d
    {
      if d in m {
        if d == Day(r) {
          assert Day(rs[|init|]) == d;
        } else {
          var i :| 0 <= i < |init| && Day(init[i]) == d;
          assert Day(rs[i]) == d;
        }
      }
      if exists i :: 0 <= i < |rs| && Day(rs[i]) == d {
        var i :| 0 <= i < |rs| && Day(rs[i]) == d;
        if i < |init| {
          assert Day(init[i]) == d;
        }
      }
    }
  }

  /** The number of readings filed under the listed days of a grouping. */
  function FiledCount(m: map<int, seq<Reading>>, days: seq<int>): nat
  {
    if |days| == 0 then 0 else (if days[0] in m then |m[days[0]]| else 0) + FiledCount(m, days[1..])
  }

  /** The number of readings of `rs` taken on the listed days. */
  function CountOnDays(rs: seq<Reading>, days: seq<int>): nat
  {
    if |days| == 0 then 0 else |ReadingsOn(rs, days[0])| + CountOnDays(rs, days[1..])
  }

  /** How many times `x` is listed in `days`. */
  function Occurrences(days: seq<int>, x: int): nat
  {
    if |days| == 0 then 0 else (if days[0] == x then 1 else 0) + Occurrences(days[1..], x)
  }

  predicate Distinct(days: seq<int>) {
    forall i, j :: 0 <= i < j < |days| ==> days[i] != days[j]
  }

  /** A day listed once in a list without repetitions occurs exactly once. */
  lemma {:induction false} OccursOnce(days: seq<int>, x: int)
    requires Distinct(days) && x in days
    ensures Occurrences(days, x) == 1
  {
    if days[0] == x {
      OccursNever(days[1..], x);
    } else {
      OccursOnce(days[1..], x);
    }
  }

  lemma {:induction false} OccursNever(days: seq<int>, x: int)
    requires x !in days
    ensures Occurrences(days, x) == 0
  {
    if |days| > 0 {
      OccursNever(days[1..], x);
    }
  }

  /** Counting over the listed days splits into the first reading's share and the rest's. */
  lemma {:induction false} CountOnDaysFirst(rs: seq<Reading>, days: seq<int>)
    requires |rs| > 0
    ensures CountOnDays(rs, days) == Occurrences(days, Day(rs[0])) + CountOnDays(rs[1..], days)
  {
    if |days| > 0 {
      CountOnDaysFirst(rs, days[1..]);
    }
  }

  /** Listing every occurring day once counts every reading exactly once. */
  lemma {:induction false} CountOnDaysAll(rs: seq<Reading>, days: seq<int>)
    requires Distinct(days)
    requires forall i :: 0 <= i < |rs| ==> Day(rs[i]) in days
    ensures CountOnDays(rs, days) == |rs|
  {
    if |rs| == 0 {
      CountOnDaysEmpty(days);
    } else {
      CountOnDaysFirst(rs, days);
      OccursOnce(days, Day(rs[0]));
      CountOnDaysAll(rs[1..], days);
    }
  }

  lemma {:induction false} CountOnDaysEmpty(days: seq<int>)
    ensures CountOnDays([], days) == 0
  {
    if |days| > 0 {
      CountOnDaysEmpty(days[1..]);
    }
  }

  /** Over keys of the grouping, what is filed is what was taken on those days. */
  lemma {:induction false} FiledIsCounted(rs: seq<Reading>, days: seq<int>)
    requires forall i :: 0 <= i < |days| ==> days[i] in ReadingsByDay(rs)
    ensures FiledCount(ReadingsByDay(rs), days) == CountOnDays(rs, days)
  {
    if |days| > 0 {
      FiledIsCounted(rs, days[1..]);
    }
  }

  /**
   The grouping is a partition: the bucket sizes, taken over its keys in ascending
   order, add up to the number of readings.
   */
  lemma PartitionSizes(rs: seq<Reading>)
    ensures FiledCount(ReadingsByDay(rs), AscendingDays(ReadingsByDay(rs).Keys)) == |rs|
  {
    var m := ReadingsByDay(rs);
    var days := AscendingDays(m.Keys);
    FiledIsCounted(rs, days);
    CountOnDaysAll(rs, days);
  }

  /** Each reading is in the bucket of its own day and in no other. */
  lemma PartitionMembership(rs: seq<Reading>, i: int)
    requires 0 <= i < |rs|
    ensures Day(rs[i]) in ReadingsByDay(rs) && rs[i] in ReadingsByDay(rs)[Day(rs[i])]
    ensures forall d :: d in ReadingsByDay(rs) && rs[i] in ReadingsByDay(rs)[d] ==> d == Day(rs[i])
  {
    ReadingsOnContains(rs, i);
    forall d | d in ReadingsByDay(rs) && rs[i] in ReadingsByDay(rs)[d]
      ensures d == Day(rs[i])
    {
      ReadingsOnMembers(rs, d);
    }
  }

  // ---------------------------------------------------------------------------
  // Per-day extremes, in TreeMap order

  /** A set is empty or has a member (set extensionality). */
  lemma EmptyOrMember(ks: set<int>)
    ensures ks == {} || exists k :: k in ks
  {
    if forall k :: k !in ks {
      assert ks == {};
    }
  }

  /** Some member of a non-empty set. */
  lemma Member(ks: set<int>) returns (k: int)
    requires ks != {}
    ensures k in ks
  {
    EmptyOrMember(ks);
    k :| k in ks;
  }

  /** `k` is the least member of `ks`. */
  predicate IsSmallest(ks: set<int>, k: int) {
    k in ks && forall j :: j in ks ==> k <= j
  }

  /** Every non-empty finite set of days has a least member. */
  lemma {:induction false} HasSmallest(ks: set<int>)
    requires ks != {}
    ensures exists k :: IsSmallest(ks, k)
    decreases |ks|
  {
    var x := Member(ks);
    var rest := ks - {x};
    if |rest| == 0 {
      forall j | j in ks ensures x <= j {
        assert j == x || j in rest;
      }
      assert IsSmallest(ks, x);
    } else {
      HasSmallest(rest);
      var m :| IsSmallest(rest, m);
      var k := if x < m then x else m;
      forall j | j in ks ensures k <= j {
        if j != x {
          assert j in rest;
        }
      }
      assert IsSmallest(ks, k);
    }
  }

  /** The smallest member of a non-empty set of days. */
  function Smallest(ks: set<int>): (k: int)
    requires ks != {}
    ensures k in ks && forall j :: j in ks ==> k <= j
  {
    HasSmallest(ks);
    var k :| IsSmallest(ks, k);
    k
  }

  /** The members of a set of days in ascending order, as a `TreeMap` iterates its keys. */
  function AscendingDays(ks: set<int>): (days: seq<int>)
    ensures forall i :: 0 <= i < |days| ==> days[i] in ks
    ensures |days| == |ks|
    ensures forall i, j :: 0 <= i < j < |days| ==> days[i] < days[j]
    ensures forall k :: k in days <==> k in ks
    decreases |ks|
  {
    if ks == {} then []
    else
      var k := Smallest(ks);
      [k] + AscendingDays(ks - {k})
  }

  /**
   Entries that follow the ascending keys of a grouping, one per key, list exactly
   those keys, in strictly ascending order.
   */
  lemma EntriesFollowKeys(byDay: map<int, seq<Reading>>, days: seq<int>, t: seq<DayTemp>)
    requires |days| == |byDay.Keys|
    requires forall i, j :: 0 <= i < j < |days| ==> days[i] < days[j]
    requires forall k :: k in days <==> k in byDay.Keys
    requires |t| == |days|
    requires forall i :: 0 <= i < |t| ==> t[i].day == days[i]
    ensures |t| == |byDay.Keys|
    ensures forall i, j :: 0 <= i < j < |t| ==> t[i].day < t[j].day
    ensures forall d :: d in byDay <==> exists i :: 0 <= i < |t| && t[i].day == d
  {
  }

  /** One entry per listed day, carrying the figure `f` computes from that day's readings. */
  function DayEntries(byDay: map<int, seq<Reading>>, days: seq<int>, f: seq<Reading> -> real): (t: seq<DayTemp>)
    requires forall i :: 0 <= i < |days| ==> days[i] in byDay.Keys
    ensures |t| == |days|
    ensures forall i :: 0 <= i < |t| ==> t[i].day == days[i] && t[i].day in byDay && t[i].temp == f(byDay[t[i].day])
  {
    if |days| == 0 then [] else [MonthStatistics.DayTemp(days[0], f(byDay[days[0]]))] + DayEntries(byDay, days[1..], f)
  }

  /**
   A `TreeMap` filled with one entry per day of the grouping, the entry carrying the figure
   `f` computes from that day's readings: the days are exactly the grouping's keys, in
   strictly ascending order.
   */
  function PerDay(byDay: map<int, seq<Reading>>, f: seq<Reading> -> real): (t: seq<DayTemp>)
    ensures forall i :: 0 <= i < |t| ==> t[i].day in byDay && t[i].temp == f(byDay[t[i].day])
    ensures |t| == |byDay.Keys|
    ensures forall i, j :: 0 <= i < j < |t| ==> t[i].day < t[j].day
    ensures forall d :: d in byDay <==> exists i :: 0 <= i < |t| && t[i].day == d
  {
    var days := AscendingDays(byDay.Keys);
    var t := DayEntries(byDay, days, f);
    EntriesFollowKeys(byDay, days, t);
    t
  }

  /**
   `getHighTemps`: a `TreeMap` from each day of the grouping to the highest temperature
   of that day's readings. Entries come in strictly ascending day order and the days are
   exactly the grouping's keys.
   */
  function HighTemps(byDay: map<int, seq<Reading>>): (t: seq<DayTemp>)
    ensures forall i :: 0 <= i < |t| ==> t[i].day in byDay && t[i].temp == HighestTemp(byDay[t[i].day])
    ensures |t| == |byDay.Keys|
    ensures forall i, j :: 0 <= i < j < |t| ==> t[i].day < t[j].day
    ensures forall d :: d in byDay <==> exists i :: 0 <= i < |t| && t[i].day == d
  {
    PerDay(byDay, HighestTemp)
  }

  /** `getLowTemps`: as `HighTemps`, with each day's lowest temperature. */
  function LowTemps(byDay: map<int, seq<Reading>>): (t: seq<DayTemp>)
    ensures forall i :: 0 <= i < |t| ==> t[i].day in byDay && t[i].temp == LowestTemp(byDay[t[i].day])
    ensures |t| == |byDay.Keys|
    ensures forall i, j :: 0 <= i < j < |t| ==> t[i].day < t[j].day
    ensures forall d :: d in byDay <==> exists i :: 0 <= i < |t| && t[i].day == d
  {
    PerDay(byDay, LowestTemp)
  }

  /** The high and the low map list the same days in the same order. */
  lemma SameDays(byDay: map<int, seq<Reading>>)
    ensures |LowTemps(byDay)| == |HighTemps(byDay)|
    ensures forall i :: 0 <= i < |LowTemps(byDay)| ==> LowTemps(byDay)[i].day == HighTemps(byDay)[i].day
  {
    hide PerDay, DayEntries, AscendingDays, HighestTemp, LowestTemp;
    PerDayEntries(byDay, LowestTemp);
    PerDayEntries(byDay, HighestTemp);
  }

  /** A per-day map holds one entry for each key of the grouping, in ascending order. */
  lemma PerDayEntries(byDay: map<int, seq<Reading>>, f: seq<Reading> -> real)
    ensures PerDay(byDay, f) == DayEntries(byDay, AscendingDays(byDay.Keys), f)
  {
  }

  /** The two maps list the same days in the same order, and each day's low is at most its high. */
  lemma LowsNotAboveHighs(byDay: map<int, seq<Reading>>)
    ensures Paired(HighTemps(byDay), LowTemps(byDay))
  {
    hide HighTemps, LowTemps, HighestTemp, LowestTemp;
    var lows, highs := LowTemps(byDay), HighTemps(byDay);
    SameDays(byDay);
    forall i | 0 <= i < |lows|
      ensures lows[i].day == highs[i].day && lows[i].temp <= highs[i].temp
    {
      LowestNotAboveHighest(byDay[lows[i].day]);
    }
  }

  /** `t` is the high of day `d` among `rs`: a reading of that day has it and none of that day exceeds it. */
  predicate IsDayHigh(rs: seq<Reading>, d: int, t: real) {
    (exists i :: 0 <= i < |rs| && Day(rs[i]) == d && rs[i].temperature == t)
    && forall i :: 0 <= i < |rs| && Day(rs[i]) == d ==> rs[i].temperature <= t
  }

  /** `t` is the low of day `d` among `rs`: a reading of that day has it and none of that day is below it. */
  predicate IsDayLow(rs: seq<Reading>, d: int, t: real) {
    (exists i :: 0 <= i < |rs| && Day(rs[i]) == d && rs[i].temperature == t)
    && forall i :: 0 <= i < |rs| && Day(rs[i]) == d ==> t <= rs[i].temperature
  }

  /** The highest temperature of a day's bucket is that day's high among all readings. */
  lemma BucketHighIsDayHigh(rs: seq<Reading>, d: int)
    requires d in ReadingsByDay(rs)
    ensures IsDayHigh(rs, d, HighestTemp(ReadingsByDay(rs)[d]))
  {
    hide ReadingsByDay, ReadingsOn, HighestTemp;
    var b := ReadingsByDay(rs)[d];
    var t := HighestTemp(b);
    ReadingsOnMembers(rs, d);
    var k :| 0 <= k < |b| && b[k].temperature == t;
    assert b[k] in b;
    var i :| 0 <= i < |rs| && rs[i] == b[k];
    assert Day(rs[i]) == d && rs[i].temperature == t;
    forall j | 0 <= j < |rs| && Day(rs[j]) == d
      ensures rs[j].temperature <= t
    {
      ReadingsOnContains(rs, j);
      var k' :| 0 <= k' < |b| && b[k'] == rs[j];
    }
  }

  /** The lowest temperature of a day's bucket is that day's low among all readings. */
  lemma BucketLowIsDayLow(rs: seq<Reading>, d: int)
    requires d in ReadingsByDay(rs)
    ensures IsDayLow(rs, d, LowestTemp(ReadingsByDay(rs)[d]))
  {
    hide ReadingsByDay, ReadingsOn, LowestTemp;
    var b := ReadingsByDay(rs)[d];
    var t := LowestTemp(b);
    ReadingsOnMembers(rs, d);
    var k :| 0 <= k < |b| && b[k].temperature == t;
    assert b[k] in b;
    var i :| 0 <= i < |rs| && rs[i] == b[k];
    assert Day(rs[i]) == d && rs[i].temperature == t;
    forall j | 0 <= j < |rs| && Day(rs[j]) == d
      ensures t <= rs[j].temperature
    {
      ReadingsOnContains(rs, j);
      var k' :| 0 <= k' < |b| && b[k'] == rs[j];
    }
  }

  /** Some reading was taken on day `d`. */
  predicate HasReadingOn(rs: seq<Reading>, d: int) {
    exists i :: 0 <= i < |rs| && Day(rs[i]) == d
  }

  /** Some entry of the per-day map is for day `d`. */
  predicate HasEntryFor(t: seq<DayTemp>, d: int) {
    exists i :: 0 <= i < |t| && t[i].day == d
  }

  /**
   `highs` is a high-temperature map of `rs`: each entry carries its day's high, the days
   ascend strictly, and a day has an entry exactly when some reading was taken on it.
   */
  ghost predicate HighsFit(rs: seq<Reading>, highs: seq<DayTemp>) {
    (forall i :: 0 <= i < |highs| ==> IsDayHigh(rs, highs[i].day, highs[i].temp))
    && (forall i, j :: 0 <= i < j < |highs| ==> highs[i].day < highs[j].day)
    && (forall d :: HasReadingOn(rs, d) <==> HasEntryFor(highs, d))
  }

  /** As `HighsFit`, for a low-temperature map. */
  ghost predicate LowsFit(rs: seq<Reading>, lows: seq<DayTemp>) {
    (forall i :: 0 <= i < |lows| ==> IsDayLow(rs, lows[i].day, lows[i].temp))
    && (forall i, j :: 0 <= i < j < |lows| ==> lows[i].day < lows[j].day)
    && (forall d :: HasReadingOn(rs, d) <==> HasEntryFor(lows, d))
  }

  /** The two maps list the same days in the same order, and no day's low is above its high. */
  predicate Paired(highs: seq<DayTemp>, lows: seq<DayTemp>) {
    |highs| == |lows|
    && forall i :: 0 <= i < |highs| ==> lows[i].day == highs[i].day && lows[i].temp <= highs[i].temp
  }

  /** The map `getHighTemps` builds from the grouping is a high-temperature map of the readings. */
  lemma DailyHighs(rs: seq<Reading>)
    ensures HighsFit(rs, HighTemps(ReadingsByDay(rs)))
  {
    var m := ReadingsByDay(rs);
    var t := HighTemps(m);
    forall i | 0 <= i < |t|
      ensures IsDayHigh(rs, t[i].day, t[i].temp)
    {
      BucketHighIsDayHigh(rs, t[i].day);
    }
    forall d ensures HasReadingOn(rs, d) <==> HasEntryFor(t, d) {
      assert d in m <==> HasEntryFor(t, d);
    }
  }

  /** The map `getLowTemps` builds from the grouping is a low-temperature map of the readings. */
  lemma DailyLows(rs: seq<Reading>)
    ensures LowsFit(rs, LowTemps(ReadingsByDay(rs)))
  {
    var m := ReadingsByDay(rs);
    var t := LowTemps(m);
    forall i | 0 <= i < |t|
      ensures IsDayLow(rs, t[i].day, t[i].temp)
    {
      BucketLowIsDayLow(rs, t[i].day);
    }
    forall d ensures HasReadingOn(rs, d) <==> HasEntryFor(t, d) {
      assert d in m <==> HasEntryFor(t, d);
    }
  }

  // ---------------------------------------------------------------------------
  // Month summary

  /**
   `getMonthStatistics`: the summary of one file's readings. Month and year are those of
   the first reading; the code does not check that the other readings agree. Without
   readings `findFirst().get()` throws, which the model renders as `None`.
   */
  function GetMonthStatistics(rs: seq<Reading>): (r: Option<MonthStats>)
    ensures r.None? <==> |rs| == 0
    ensures r.Some? ==> r.value.month == MonthOfTimestamp(rs[0].timestamp) && r.value.year == rs[0].timestamp.year
    ensures r.Some? ==> MonthStatistics.Derived(r.value)
    ensures r.Some? ==> MonthStatistics.IsDayMap(r.value.highTemps) && MonthStatistics.IsDayMap(r.value.lowTemps)
  {
    if |rs| == 0 then None
    else
      var sample := rs[0];
      var byDay := ReadingsByDay(rs);
      Some(MonthStatistics.Build(LowestTemp(rs), HighestTemp(rs), AverageTemp(rs),
                                 HighTemps(byDay), LowTemps(byDay),
                                 LowestHumidity(rs), HighestHumidity(rs), AverageHumidity(rs),
                                 MonthOfTimestamp(sample.timestamp), sample.timestamp.year))
  }

  /** The month-wide figures of the summary, stated against the readings themselves. */
  lemma MonthTotals(rs: seq<Reading>)
    requires |rs| > 0
    ensures var s := GetMonthStatistics(rs).value;
            (exists i :: 0 <= i < |rs| && rs[i].temperature == s.maximumTemp)
            && (forall i :: 0 <= i < |rs| ==> rs[i].temperature <= s.maximumTemp)
            && (exists i :: 0 <= i < |rs| && rs[i].temperature == s.minimumTemp)
            && (forall i :: 0 <= i < |rs| ==> s.minimumTemp <= rs[i].temperature)
            && s.averageTemp == Sum(Temperatures(rs)) / (|rs| as real)
            && (exists i :: 0 <= i < |rs| && rs[i].humidity == s.maximumHumidity)
            && (forall i :: 0 <= i < |rs| ==> rs[i].humidity <= s.maximumHumidity)
            && (exists i :: 0 <= i < |rs| && rs[i].humidity == s.minimumHumidity)
            && (forall i :: 0 <= i < |rs| ==> s.minimumHumidity <= rs[i].humidity)
            && s.averageHumidity == (IntSum(Humidities(rs)) as real) / (|rs| as real)
  {
    hide GetMonthStatistics;
    SummaryScalars(rs);
  }

  /** `highs` and `lows` are the per-day maps of `rs`. */
  ghost predicate DailyMapsFit(rs: seq<Reading>, highs: seq<DayTemp>, lows: seq<DayTemp>) {
    HighsFit(rs, highs) && LowsFit(rs, lows) && Paired(highs, lows)
  }

  /** The maps `getHighTemps` and `getLowTemps` build from the grouping fit the readings. */
  lemma DailyMapsOfReadings(rs: seq<Reading>)
    ensures DailyMapsFit(rs, HighTemps(ReadingsByDay(rs)), LowTemps(ReadingsByDay(rs)))
  {
    hide ReadingsByDay, HighTemps, LowTemps, HighsFit, LowsFit, Paired;
    DailyHighs(rs);
    DailyLows(rs);
    LowsNotAboveHighs(ReadingsByDay(rs));
  }

  /** The per-day maps of the month summary fit its readings. */
  lemma MonthDailyMaps(rs: seq<Reading>)
    requires |rs| > 0
    ensures DailyMapsFit(rs, GetMonthStatistics(rs).value.highTemps, GetMonthStatistics(rs).value.lowTemps)
  {
    DailyMapsOfReadings(rs);
  }

  /** Listed daily highs for every day with a reading: the highest reading is the highest daily high. */
  lemma HighestIsTopDailyHigh(rs: seq<Reading>, highs: seq<DayTemp>)
    requires |rs| > 0
    requires HighsFit(rs, highs)
    ensures |highs| > 0 && HighestTemp(rs) == MonthStatistics.MaxTemp(highs)
  {
    hide HighestTemp, MonthStatistics.MaxTemp;
    assert HasReadingOn(rs, Day(rs[0]));
    // the highest daily high is some reading's temperature, so at most the highest reading
    var k :| 0 <= k < |highs| && highs[k].temp == MonthStatistics.MaxTemp(highs);
    assert IsDayHigh(rs, highs[k].day, highs[k].temp);
    // the highest reading's day has a high at least as high
    var i :| 0 <= i < |rs| && rs[i].temperature == HighestTemp(rs);
    assert HasReadingOn(rs, Day(rs[i]));
    var j :| 0 <= j < |highs| && highs[j].day == Day(rs[i]);
    assert IsDayHigh(rs, highs[j].day, highs[j].temp);
  }

  /** Listed daily lows for every day with a reading: the lowest reading is the lowest daily low. */
  lemma LowestIsBottomDailyLow(rs: seq<Reading>, lows: seq<DayTemp>)
    requires |rs| > 0
    requires LowsFit(rs, lows)
    ensures |lows| > 0 && LowestTemp(rs) == MonthStatistics.MinTemp(lows)
  {
    hide LowestTemp, MonthStatistics.MinTemp;
    assert HasReadingOn(rs, Day(rs[0]));
    var k :| 0 <= k < |lows| && lows[k].temp == MonthStatistics.MinTemp(lows);
    assert IsDayLow(rs, lows[k].day, lows[k].temp);
    var i :| 0 <= i < |rs| && rs[i].temperature == LowestTemp(rs);
    assert HasReadingOn(rs, Day(rs[i]));
    var j :| 0 <= j < |lows| && lows[j].day == Day(rs[i]);
    assert IsDayLow(rs, lows[j].day, lows[j].temp);
  }

  /** Every daily high is a reading's temperature, so the lowest high is not below the lowest reading. */
  lemma LowestHighNotBelowMinimum(rs: seq<Reading>, highs: seq<DayTemp>)
    requires |highs| > 0
    requires HighsFit(rs, highs)
    ensures LowestTemp(rs) <= MonthStatistics.MinTemp(highs)
  {
    hide LowestTemp, MonthStatistics.MinTemp;
    var k :| 0 <= k < |highs| && highs[k].temp == MonthStatistics.MinTemp(highs);
    assert IsDayHigh(rs, highs[k].day, highs[k].temp);
  }

  /** Every daily low is a reading's temperature, so the highest low is not above the highest reading. */
  lemma HighestLowNotAboveMaximum(rs: seq<Reading>, lows: seq<DayTemp>)
    requires |lows| > 0
    requires LowsFit(rs, lows)
    ensures MonthStatistics.MaxTemp(lows) <= HighestTemp(rs)
  {
    hide HighestTemp, MonthStatistics.MaxTemp;
    var k :| 0 <= k < |lows| && lows[k].temp == MonthStatistics.MaxTemp(lows);
    assert IsDayLow(rs, lows[k].day, lows[k].temp);
  }

  /** Each day's low is at most its high, so the average low is at most the average high. */
  lemma AverageLowNotAboveAverageHigh(highs: seq<DayTemp>, lows: seq<DayTemp>)
    requires Paired(highs, lows)
    ensures MonthStatistics.AverageTemp(lows) <= MonthStatistics.AverageTemp(highs)
  {
    if |highs| > 0 {
      var lo, hi := MonthStatistics.Temps(lows), MonthStatistics.Temps(highs);
      SumMonotone(lo, hi);
      var n := |highs| as real;
      assert Sum(lo) / n <= Sum(hi) / n by {
        QuotientBetween(Sum(lo) / n, Sum(lo), Sum(hi) / n, n);
      }
    }
  }

  /**
   The ordering the summary's figures obey: the averages lie between the extremes; the
   month's extremes are the extreme daily high and the extreme daily low; the coldest
   day's high is not below the month's minimum, nor the warmest night's low above its
   maximum; the average low is at most the average high; and the lowest high and highest
   low bound the averages of their maps.
   */
  lemma MonthOrdering(rs: seq<Reading>)
    requires |rs| > 0
    ensures var s := GetMonthStatistics(rs).value;
            s.minimumTemp <= s.averageTemp <= s.maximumTemp
            && s.minimumHumidity as real <= s.averageHumidity <= s.maximumHumidity as real
            && s.maximumTemp == MonthStatistics.MaxTemp(s.highTemps)
            && s.minimumTemp == MonthStatistics.MinTemp(s.lowTemps)
            && s.minimumTemp <= s.lowestHigh && s.highestLow <= s.maximumTemp
            && s.averageLow <= s.averageHigh
            && s.lowestHigh <= s.averageHigh && s.averageLow <= s.highestLow
  {
    hide GetMonthStatistics, HighestTemp, LowestTemp, AverageTemp, HighestHumidity, LowestHumidity,
         AverageHumidity, ReadingsByDay, HighTemps, LowTemps, HighsFit, LowsFit, Paired,
         MonthStatistics.MaxTemp, MonthStatistics.MinTemp, MonthStatistics.AverageTemp;
    var s := GetMonthStatistics(rs).value;
    SummaryScalars(rs);
    MonthDailyMaps(rs);
    AverageTempWithin(rs);
    AverageHumidityWithin(rs);
    HighestIsTopDailyHigh(rs, s.highTemps);
    LowestIsBottomDailyLow(rs, s.lowTemps);
    LowestHighNotBelowMinimum(rs, s.highTemps);
    HighestLowNotAboveMaximum(rs, s.lowTemps);
    AverageLowNotAboveAverageHigh(s.highTemps, s.lowTemps);
    MonthStatistics.DerivedOrdering(s);
  }

  /** The scalar fields of the summary are the reducers' results over the readings. */
  lemma SummaryScalars(rs: seq<Reading>)
    requires |rs| > 0
    ensures var s := GetMonthStatistics(rs).value;
            s.minimumTemp == LowestTemp(rs) && s.maximumTemp == HighestTemp(rs) && s.averageTemp == AverageTemp(rs)
            && s.minimumHumidity == LowestHumidity(rs) && s.maximumHumidity == HighestHumidity(rs)
            && s.averageHumidity == AverageHumidity(rs)
  {
  }

  /** The per-day maps of the summary are built from the grouping of the readings by day. */
  lemma SummaryMaps(rs: seq<Reading>)
    requires |rs| > 0
    ensures var s := GetMonthStatistics(rs).value;
            s.highTemps == HighTemps(ReadingsByDay(rs)) && s.lowTemps == LowTemps(ReadingsByDay(rs))
  {
  }


  /** Two readings on different days are filed in two buckets of one reading each. */
  lemma TwoDaysTwoBuckets(r1: Reading, r2: Reading)
    requires Day(r1) != Day(r2)
    ensures ReadingsByDay([r1, r2]) == map[Day(r1) := [r1], Day(r2) := [r2]]
  {
    hide Day;
    assert [r1, r2][..1] == [r1];
    assert [r1][..0] == [];
    assert ReadingsByDay([r1]) == map[Day(r1) := [r1]];
  }

  /** Over two readings, the figures are the larger, the smaller and the halves of the sums. */
  lemma TwoReadingsFigures(r1: Reading, r2: Reading)
    requires r1.temperature <= r2.temperature
    ensures HighestTemp([r1, r2]) == r2.temperature && LowestTemp([r1, r2]) == r1.temperature
    ensures AverageTemp([r1, r2]) == (r1.temperature + r2.temperature) / 2.0
    ensures AverageHumidity([r1, r2]) == (r1.humidity + r2.humidity) as real / 2.0
  {
    var rs := [r1, r2];
    assert Temperatures(rs) == [r1.temperature, r2.temperature];
    assert Humidities(rs) == [r1.humidity, r2.humidity];
    assert [r1.temperature, r2.temperature][1..] == [r2.temperature];
    assert [r1.humidity, r2.humidity][1..] == [r2.humidity];
    assert Sum([r2.temperature]) == r2.temperature by {
      assert [r2.temperature][1..] == [];
    }
    assert IntSum([r2.humidity]) == r2.humidity by {
      assert [r2.humidity][1..] == [];
    }
    assert Sum([r1.temperature, r2.temperature]) == r1.temperature + r2.temperature;
    assert IntSum([r1.humidity, r2.humidity]) == r1.humidity + r2.humidity;
  }

  /**
   Two readings in June 2023, 20.5 degrees and 55% on the 1st, 22.0 degrees and 60% on
   the 2nd: highest 22.0, lowest 20.5, average 21.25 (their buckets: `TwoDaysTwoBuckets`).
   */
  lemma TwoJuneDays(r1: Reading, r2: Reading)
    requires r1.timestamp.year == 2023 && r1.timestamp.month == 6 && Day(r1) == 1 && Day(r2) == 2
    requires r1.temperature == 20.5 && r1.humidity == 55 && r2.temperature == 22.0 && r2.humidity == 60
    ensures var s := GetMonthStatistics([r1, r2]).value;
            s.maximumTemp == 22.0 && s.minimumTemp == 20.5 && s.averageTemp == 21.25
            && s.averageHumidity == 57.5 && s.month == JUNE && s.year == 2023
  {
    hide GetMonthStatistics, HighestTemp, LowestTemp, AverageTemp, AverageHumidity, ReadingsByDay, HighTemps, LowTemps;
    TwoReadingsFigures(r1, r2);
    SummaryScalars([r1, r2]);
  }

}
