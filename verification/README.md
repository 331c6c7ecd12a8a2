# Weather-station month summaries, modelled in Dafny

This project models the part of the weather-data program that computes statistics, for a
Netatmo outdoor weather station. The program reads one CSV export per month. It turns
each row into a `Reading`, which holds a timestamp, a temperature and an integer relative
humidity.

From the readings it computes:

- the month's highest, lowest and average temperature;
- the month's highest, lowest and average humidity;
- a per-day map of each day's high temperature;
- a per-day map of each day's low temperature.

The `MonthStatistics` summary then derives four figures from those two maps: the average
high, the average low, the lowest high ("coldest day") and the highest low ("warmest
night"). The report lists the summaries ordered by year, then by month.

Modules, following the Java classes:

| module | file | models |
|---|---|---|
| `Readings` | `readings.dfy` | `Reading`: its fields, its constructor (parsing the three text columns) and `getDay` |
| `MonthStatistics` | `month_statistics.dfy` | `MonthStatistics`: the constructor with its derived fields, and the static map helpers `getAverageTemp`, `getMaxTemp` and `getMinTemp` |
| `WeatherDataLoader` | `weather_data_loader.dfy` | the reducers over readings, `getReadingsByDay`, `getHighTemps`, `getLowTemps` and `getMonthStatistics` |
| `ReportOrder` | `report_order.dfy` | the year-then-month comparator of `printStats` and the stable `Stream.sorted` it is applied with |
| `Aggregates` | `aggregates.dfy` | the `max()`, `min()` and `average()` stream reductions, over `real` and over `int` |
| `Calendar` | `calendar.dfy` | `java.time.Month`, a validated `LocalDateTime`, and the `yyyy/MM/dd HH:mm:ss` pattern |
| `Numerals` | `numerals.dfy` | `Integer.parseInt` and `Double.parseDouble` on the decimal inputs a station export contains |
| `Options` | `options.dfy` | `Option`: `None` stands for an exception the Java code would throw |

How Java types are represented:

- A temperature is a `real`. A humidity is an `int`; the parser keeps it within Java's
  `int` range.
- A `Map<Integer, List<Reading>>` is a Dafny `map`.
- A `TreeMap<Integer, Double>` is the sequence of its entries in iteration order, that is,
  in ascending day order (`seq<DayTemp>`).
- A `List<MonthStatistics>` is a `seq`.

How the code groups and labels readings:

- Readings are grouped by `Reading::getDay` alone, the calendar day of the month
  (`WeatherDataLoader.java:245`). `DayFormat` is not used.
- The month and year of a summary come from the first reading of the list
  (`findFirst().get()`). Nothing checks that the other readings belong to the same month.

## Model

| member | source | states |
|---|---|---|
| `Readings.Day` | src/karlovich/weather/Reading.java:30-32 | `getDay` is a valid day of the timestamp's month; it depends on the date only |
| `Readings.SameDateSameDay` | src/karlovich/weather/Reading.java:30-32 | two readings on the same calendar date share their day, whatever the time of day |
| `Readings.ParseReading` | src/karlovich/weather/Reading.java:20-24 | construction succeeds exactly when the timestamp, temperature and humidity texts all parse, and the reading holds the three parsed values |
| `Readings.ParseReadingSpec` | src/karlovich/weather/Reading.java:20-24 | construction succeeds exactly when all three columns parse. The stored timestamp is the one the text spells. The stored temperature and humidity are the parsed values, and the humidity is within `int` range |
| `Readings.ParseReadingRoundTrip` | src/karlovich/weather/Reading.java:20-24 | a reading written out as export text (timestamp, fixed-point temperature, integer humidity) is read back with the same three values |
| `Calendar.MonthOf` | src/karlovich/weather/WeatherDataLoader.java:130 | `getMonth()` maps month number n to the month at ordinal n-1 |
| `Calendar.MonthOfOrdinal` | src/karlovich/weather/WeatherDataLoader.java:130 | month numbers and `Month` values correspond one to one |
| `Calendar.ParseTimestamp` | src/karlovich/weather/Reading.java:21 | an accepted timestamp has a year from 1 to 9999 (a four-digit year of the era) |
| `Calendar.ParseFormatTimestamp` | src/karlovich/weather/Reading.java:17 | every timestamp with a four-digit year is read back from its `yyyy/MM/dd HH:mm:ss` rendering |
| `Calendar.FormatParseTimestamp` | src/karlovich/weather/Reading.java:21 | every accepted text is the rendering of the timestamp it yields, so the pattern admits exactly one spelling per timestamp |
| `Numerals.ParseInt` | src/karlovich/weather/Reading.java:23 | an accepted humidity text is an optional `+` or `-` followed by at least one digit, and its value is within `int` range. The value is what the digits denote, negated after a `-`. Every such text whose value fits an `int` is accepted |
| `Numerals.ParseDouble` | src/karlovich/weather/Reading.java:22 | a temperature text is accepted exactly when, after trimming blanks and dropping one `f`/`F`/`d`/`D` suffix, it is an optional sign, then digits with at most one point and at least one digit, then optionally `e`/`E` with an optional sign and at least one digit |
| `Numerals.ParseIntToString` | src/karlovich/weather/Reading.java:23 | every `int` is read back from its decimal rendering |
| `Numerals.ParseFormatFixed` | src/karlovich/weather/Reading.java:22 | a fixed-point decimal such as `-3.75` reads back as exactly units / 10^scale |
| `Numerals.ParseIntThenDouble` | src/karlovich/weather/Reading.java:22-23 | every text `Integer.parseInt` accepts is accepted by `Double.parseDouble`, with the same value |
| `Aggregates.StreamMax` | src/karlovich/weather/WeatherDataLoader.java:152 | `max()` is empty exactly for an empty stream; otherwise it is an element that no element exceeds |
| `Aggregates.StreamMin` | src/karlovich/weather/WeatherDataLoader.java:167 | `min()` is empty exactly for an empty stream; otherwise it is an element that no element undercuts |
| `Aggregates.StreamAverage` | src/karlovich/weather/WeatherDataLoader.java:184 | `average()` is empty exactly for an empty stream; otherwise it is the sum over the count |
| `Aggregates.IntStreamMax` | src/karlovich/weather/WeatherDataLoader.java:199 | `IntStream.max()` is empty exactly for an empty stream; otherwise it is a member that bounds all others from above |
| `Aggregates.IntStreamMin` | src/karlovich/weather/WeatherDataLoader.java:214 | `IntStream.min()` is empty exactly for an empty stream; otherwise it is a member that bounds all others from below |
| `Aggregates.IntStreamAverage` | src/karlovich/weather/WeatherDataLoader.java:229 | `IntStream.average()` is empty exactly for an empty stream; otherwise it is the integer sum divided, as a real, by the count |
| `Aggregates.MeanWithin` | src/karlovich/weather/WeatherDataLoader.java:176-191 | bounds on every element of a non-empty list bound its mean |
| `Aggregates.SumMonotone` | src/karlovich/weather/MonthStatistics.java:72-73 | sums of two pointwise-ordered lists of equal length are ordered the same way |
| `WeatherDataLoader.HighestTemp` | src/karlovich/weather/WeatherDataLoader.java:151-159 | the result is 0.0 for no readings; otherwise it is some reading's temperature, and no reading's temperature exceeds it |
| `WeatherDataLoader.LowestTemp` | src/karlovich/weather/WeatherDataLoader.java:166-174 | the result is 0.0 for no readings; otherwise it is some reading's temperature, and no reading's temperature is below it |
| `WeatherDataLoader.AverageTemp` | src/karlovich/weather/WeatherDataLoader.java:176-191 | the result is 0.0 for no readings; otherwise it is the sum of every reading's temperature over the number of readings |
| `WeatherDataLoader.HighestHumidity` | src/karlovich/weather/WeatherDataLoader.java:198-206 | the result is 0 for no readings; otherwise it is some reading's humidity, and no reading's humidity exceeds it |
| `WeatherDataLoader.LowestHumidity` | src/karlovich/weather/WeatherDataLoader.java:213-221 | the result is 0 for no readings; otherwise it is some reading's humidity, and no reading's humidity is below it |
| `WeatherDataLoader.AverageHumidity` | src/karlovich/weather/WeatherDataLoader.java:228-236 | the result is 0.0 for no readings; otherwise it is the integer sum of the humidities over their count, as a real |
| `WeatherDataLoader.AverageTempWithin` | src/karlovich/weather/WeatherDataLoader.java:166-191 | for readings, the average temperature lies between the lowest and the highest |
| `WeatherDataLoader.AverageHumidityWithin` | src/karlovich/weather/WeatherDataLoader.java:213-236 | for readings, the average humidity lies between the lowest and the highest |
| `WeatherDataLoader.LowestNotAboveHighest` | src/karlovich/weather/WeatherDataLoader.java:151-174 | the lowest temperature never exceeds the highest, even without readings (both are then 0.0) |
| `WeatherDataLoader.ReadingsByDay` | src/karlovich/weather/WeatherDataLoader.java:243-246 | the keys are exactly the days that occur, and no bucket is empty. The bucket of day d is exactly the readings taken on day d, in input order |
| `WeatherDataLoader.PartitionSizes` | src/karlovich/weather/WeatherDataLoader.java:243-246 | the bucket sizes add up to the number of readings |
| `WeatherDataLoader.PartitionMembership` | src/karlovich/weather/WeatherDataLoader.java:243-246 | every reading is in the bucket of its own day and in no other |
| `WeatherDataLoader.FileLast` | src/karlovich/weather/WeatherDataLoader.java:245 | appending a reading to the bucket of its day turns a grouping of the earlier readings into a grouping of them all |
| `WeatherDataLoader.TwoDaysTwoBuckets` | src/karlovich/weather/WeatherDataLoader.java:245 | two readings on different days make two buckets of one reading each |
| `WeatherDataLoader.AscendingDays` | src/karlovich/weather/WeatherDataLoader.java:255 | the days of a `TreeMap` are iterated in strictly ascending order, each key once and nothing else |
| `WeatherDataLoader.PerDay` | src/karlovich/weather/WeatherDataLoader.java:255-257 | filling a `TreeMap` with one figure per key of the grouping gives one entry per key, in strictly ascending day order. Each entry holds the figure of that day's bucket |
| `WeatherDataLoader.HighTemps` | src/karlovich/weather/WeatherDataLoader.java:253-258 | one entry per day of the grouping, in strictly ascending day order. Each entry holds the highest temperature of that day's bucket |
| `WeatherDataLoader.LowTemps` | src/karlovich/weather/WeatherDataLoader.java:265-270 | one entry per day of the grouping, in strictly ascending day order. Each entry holds the lowest temperature of that day's bucket |
| `WeatherDataLoader.SameDays` | src/karlovich/weather/WeatherDataLoader.java:253-270 | the high and the low map list the same days in the same order |
| `WeatherDataLoader.LowsNotAboveHighs` | src/karlovich/weather/WeatherDataLoader.java:253-270 | the two maps list the same days in the same order, and no day's low exceeds its high |
| `WeatherDataLoader.BucketHighIsDayHigh` | src/karlovich/weather/WeatherDataLoader.java:256 | the high of a day's bucket is a temperature taken that day, and no reading of that day in the whole input exceeds it |
| `WeatherDataLoader.BucketLowIsDayLow` | src/karlovich/weather/WeatherDataLoader.java:268 | the low of a day's bucket is a temperature taken that day, and no reading of that day in the whole input is below it |
| `WeatherDataLoader.DailyHighs` | src/karlovich/weather/WeatherDataLoader.java:253-258 | each entry of the high map built from the grouping is its day's high over the raw readings. The days ascend, and a day has an entry exactly when a reading was taken on it |
| `WeatherDataLoader.DailyLows` | src/karlovich/weather/WeatherDataLoader.java:265-270 | the same for the low map and each day's low |
| `WeatherDataLoader.DailyMapsOfReadings` | src/karlovich/weather/WeatherDataLoader.java:135-139 | the high and low maps both fit the readings and pair up day by day |
| `WeatherDataLoader.GetMonthStatistics` | src/karlovich/weather/WeatherDataLoader.java:127-144 | fails exactly on an empty list. Month and year are those of the first reading, the derived fields agree with the per-day maps, and both maps list each day once in ascending order, as a `TreeMap` does |
| `WeatherDataLoader.MonthTotals` | src/karlovich/weather/WeatherDataLoader.java:138-141 | maximum and minimum temperature and humidity are attained by some reading and bound all readings. The two averages are sums over the count of all readings |
| `WeatherDataLoader.SummaryScalars` | src/karlovich/weather/WeatherDataLoader.java:138-140 | the six month-wide figures are the reducers applied to all readings |
| `WeatherDataLoader.SummaryMaps` | src/karlovich/weather/WeatherDataLoader.java:135-139 | the per-day maps of the summary are built from the grouping by day |
| `WeatherDataLoader.MonthDailyMaps` | src/karlovich/weather/WeatherDataLoader.java:133-141 | the summary's high and low maps fit its readings day by day |
| `WeatherDataLoader.HighestIsTopDailyHigh` | src/karlovich/weather/WeatherDataLoader.java:138-139 | for any high map that fits the readings, the month's highest temperature is the highest daily high |
| `WeatherDataLoader.LowestIsBottomDailyLow` | src/karlovich/weather/WeatherDataLoader.java:138-139 | for any low map that fits the readings, the month's lowest temperature is the lowest daily low |
| `WeatherDataLoader.LowestHighNotBelowMinimum` | src/karlovich/weather/WeatherDataLoader.java:138-139 | the coldest day's high is not below the month's lowest temperature |
| `WeatherDataLoader.HighestLowNotAboveMaximum` | src/karlovich/weather/WeatherDataLoader.java:138-139 | the warmest night's low is not above the month's highest temperature |
| `WeatherDataLoader.AverageLowNotAboveAverageHigh` | src/karlovich/weather/MonthStatistics.java:72-73 | when each day's low is at most its high, the average low is at most the average high |
| `WeatherDataLoader.MonthOrdering` | src/karlovich/weather/WeatherDataLoader.java:127-144 | every summary obeys the following (full list in the member's doc comment). The averages lie between the extremes. The month's maximum and minimum are the top daily high and the bottom daily low. The coldest day and warmest night lie within the month's extremes. The average low is at most the average high. The lowest high and highest low bound the averages of their maps |
| `WeatherDataLoader.TwoReadingsFigures` | src/karlovich/weather/WeatherDataLoader.java:151-191 | over two readings: the highest is the larger, the lowest is the smaller, and the averages are half the sums |
| `WeatherDataLoader.TwoJuneDays` | src/karlovich/weather/WeatherDataLoader.java:127-144 | a two-day June 2023 month gives maximum 22.0, minimum 20.5, average 21.25, average humidity 57.5, and JUNE 2023 |
| `MonthStatistics.Temps` | src/karlovich/weather/MonthStatistics.java:85 | `mapToDouble(source::get)` yields one temperature per entry, in entry order |
| `MonthStatistics.AverageTemp` | src/karlovich/weather/MonthStatistics.java:84-92 | the result is 0.0 for an empty map; otherwise it is the sum of the map's temperatures over the number of entries |
| `MonthStatistics.MaxTemp` | src/karlovich/weather/MonthStatistics.java:99-107 | the result is 0.0 for an empty map; otherwise it is one of the map's temperatures, and none exceeds it |
| `MonthStatistics.MinTemp` | src/karlovich/weather/MonthStatistics.java:114-122 | the result is 0.0 for an empty map; otherwise it is one of the map's temperatures, and none is below it |
| `MonthStatistics.AverageWithinExtremes` | src/karlovich/weather/MonthStatistics.java:84-122 | for a non-empty map, minimum ≤ average ≤ maximum |
| `MonthStatistics.Build` | src/karlovich/weather/MonthStatistics.java:58-76 | the constructor stores every argument unchanged, so `getMonth` and `getYear` return the arguments. The average high and low are the means of the high and low maps. The lowest high is the smallest daily high, the highest low the largest daily low. All four are 0.0 when their map is empty. Both maps are `TreeMap` entries: each day once, ascending |
| `MonthStatistics.DerivedOrdering` | src/karlovich/weather/MonthStatistics.java:71-75 | lowest high ≤ average high, and average low ≤ highest low |
| `MonthStatistics.TwoDayHighs` | src/karlovich/weather/MonthStatistics.java:72-74 | highs of 10.0 and 20.0 give an average high of 15.0 and a coldest day of 10.0 |
| `ReportOrder.CompareInts` | src/karlovich/weather/WeatherDataLoader.java:83 | comparing years is negative, zero or positive as the first year is earlier than, equal to or later than the second |
| `ReportOrder.OrdinalInjective` | src/karlovich/weather/WeatherDataLoader.java:84 | two months with the same ordinal are the same month |
| `ReportOrder.CompareMonths` | src/karlovich/weather/WeatherDataLoader.java:84 | comparing months is negative exactly when the first comes earlier in the year, and zero exactly for the same month |
| `ReportOrder.Compare` | src/karlovich/weather/WeatherDataLoader.java:83-85 | year-then-month comparison has the sign of the difference between the two summaries' positions on the month time line |
| `ReportOrder.CompareIsOrder` | src/karlovich/weather/WeatherDataLoader.java:83-85 | the comparator is sign-antisymmetric and transitive |
| `ReportOrder.SortedByComparator` | src/karlovich/weather/WeatherDataLoader.java:86 | in a sorted list no summary compares after a later one |
| `ReportOrder.Insert` | src/karlovich/weather/WeatherDataLoader.java:86 | inserting into a sorted list keeps it sorted and adds exactly the new summary |
| `ReportOrder.SortForReport` | src/karlovich/weather/WeatherDataLoader.java:86 | the report order is sorted by year, then month, and is a permutation of the input |
| `ReportOrder.InsertStable` | src/karlovich/weather/WeatherDataLoader.java:86 | insertion places the new summary after those already present with the same year and month |
| `ReportOrder.SortStable` | src/karlovich/weather/WeatherDataLoader.java:86 | summaries of the same year and month keep their input order |
| `ReportOrder.SortedStableUnique` | src/karlovich/weather/WeatherDataLoader.java:86 | two sorted lists that agree, for each year and month, on the order of its summaries are equal |
| `ReportOrder.SortIsUnique` | src/karlovich/weather/WeatherDataLoader.java:86 | every stable sort by this comparator returns the report order, whatever its algorithm |
| `ReportOrder.DecemberBeforeJanuary` | src/karlovich/weather/WeatherDataLoader.java:81-86 | January 2023 given before December 2022 is reported after it |

## Left out

- `main`, `readMonthData` and the file loop of `calculateMonthStatistics` are not modelled. They walk a directory, read files and split CSV lines. The model starts from the list of readings that one file yields.
- `writeDailyStats`, `printStatistics` and the `forEach(printStatistics)` at the end of `printStats` are not modelled; they are file and console output. `printStats` is modelled up to the order in which it prints.
- `Reading.toString` and the `DecimalFormat("##.#")` rendering are not modelled; they are string formatting for display.
- Temperatures and averages are exact `real` numbers, not IEEE `double`s. Rounding in `Double.parseDouble` and in the summation of `average()` is not modelled.
- `Numerals.ParseDouble` accepts only decimal notation: an optional sign, digits with at most one point, an optional exponent and an optional `f`/`F`/`d`/`D` suffix. `NaN`, `Infinity` and hexadecimal floating literals have no `real` value and are refused.
- `Numerals.ParseInt` accepts only the ASCII digits. Java also accepts other Unicode decimal digits, which a station export does not contain.
- `Calendar.ParseTimestamp` refuses every text that does not spell a valid date and time. `DateTimeFormatter`'s default resolver differs in three ways that are not modelled:
  - it clamps days 29 to 31 to the end of a shorter month;
  - it accepts `24:00:00`;
  - it accepts a year written with a `+` and more than four digits.
- `Calendar.FormatTimestamp` requires a year from 1 to 9999. Those are the only years the model reads.
- The iteration order of the intermediate `HashMap` from `groupingBy` is not modelled. The grouping is a `map`, and the per-day maps iterate in ascending day order as a `TreeMap` does.
- `IntStream.average()` sums in a `long`. The model's integer sums are unbounded, so they cannot overflow; a 64-bit sum would need about 2^32 readings to overflow.
- `DayFormat.java` is not part of this model. It is an enum of two labels, and the modelled code does not use it.
