/**
 The order in which `printStats` reports the month summaries: by year, then by month,
 through `Comparator.comparing(getYear).thenComparing(Comparator.comparing(getMonth))`,
 applied by `Stream.sorted`, which keeps summaries that compare equal in input order.
 */
module ReportOrder {
  import opened Calendar
  import MonthStatistics

  type MonthStats = MonthStatistics.MonthStats

  /** `Integer.compare`: negative, zero or positive as `a` is below, equal to or above `b`. */
  function CompareInts(a: int, b: int): (c: int)
    ensures c < 0 <==> a < b
    ensures c == 0 <==> a == b
    ensures -1 <= c <= 1
  {
    if a < b then -1 else if a == b then 0 else 1
  }

  /** Two months with the same ordinal are the same month. */
  lemma OrdinalInjective(a: Month, b: Month)
    ensures Ordinal(a) == Ordinal(b) <==> a == b
  {
    if Ordinal(a) == Ordinal(b) {
      MonthOfOrdinal(a);
      MonthOfOrdinal(b);
    }
  }

  /** `Enum.compareTo` on `Month`: the difference of the ordinals. */
  function CompareMonths(a: Month, b: Month): (c: int)
    ensures c < 0 <==> Ordinal(a) < Ordinal(b)
    ensures c == 0 <==> a == b
  {
    OrdinalInjective(a, b);
    Ordinal(a) - Ordinal(b)
  }

  /** The position of a summary's month on a single time line: months since January of year 0. */
  function ReportKey(s: MonthStats): int
  {
    12 * s.year + Ordinal(s.month)
  }

  /**
   The comparator: the years decide unless equal, then the months. Its sign is that of
   the difference of the summaries' positions on the month time line.
   */
  function Compare(a: MonthStats, b: MonthStats): (c: int)
    ensures c < 0 <==> ReportKey(a) < ReportKey(b)
    ensures c == 0 <==> ReportKey(a) == ReportKey(b)
    ensures c > 0 <==> ReportKey(a) > ReportKey(b)
  {
    var byYear := CompareInts(a.year, b.year);
    if byYear != 0 then byYear else CompareMonths(a.month, b.month)
  }

  /** The comparator is antisymmetric in sign and transitive, so it orders the summaries. */
  lemma CompareIsOrder(a: MonthStats, b: MonthStats, c: MonthStats)
    ensures Compare(a, b) < 0 <==> Compare(b, a) > 0
    ensures Compare(a, b) == 0 <==> Compare(b, a) == 0
    ensures Compare(a, b) <= 0 && Compare(b, c) <= 0 ==> Compare(a, c) <= 0
  {
  }

  /** No summary lies later on the month time line than a summary after it. */
  predicate Sorted(s: seq<MonthStats>) {
    forall i, j :: 0 <= i < j < |s| ==> ReportKey(s[i]) <= ReportKey(s[j])
  }

  /** A sorted sequence is in comparator order: no summary compares after a later one. */
  lemma SortedByComparator(s: seq<MonthStats>)
    requires Sorted(s)
    ensures forall i, j :: 0 <= i < j < |s| ==> Compare(s[i], s[j]) <= 0
  {
  }

  /** The summaries of `s` at position `k` of the month time line, in their order in `s`. */
  function WithKey(s: seq<MonthStats>, k: int): seq<MonthStats>
  {
    if |s| == 0 then [] else (if ReportKey(s[0]) == k then [s[0]] else []) + WithKey(s[1..], k)
  }

  /** Putting a summary no later than all of a sorted sequence in front keeps it sorted. */
  lemma ConsSorted(y: MonthStats, t: seq<MonthStats>)
    requires Sorted(t)
    requires forall z :: z in t ==> ReportKey(y) <= ReportKey(z)
    ensures Sorted([y] + t)
  {
    forall i, j | 0 <= i < j < |[y] + t|
      ensures ReportKey(([y] + t)[i]) <= ReportKey(([y] + t)[j])
    {
      if i == 0 {
        assert ([y] + t)[j] == t[j - 1];
        assert t[j - 1] in t;
      } else {
        assert ([y] + t)[i] == t[i - 1] && ([y] + t)[j] == t[j - 1];
      }
    }
  }

  /**
   Stable insertion: `x` goes after every summary that does not compare after it, that is,
   behind the summaries of equal key already present.
   */
  function Insert(s: seq<MonthStats>, x: MonthStats): (r: seq<MonthStats>)
    requires Sorted(s)
    ensures Sorted(r)
    ensures multiset(r) == multiset(s) + multiset{x}
  {
    if |s| == 0 then [x]
    else if Compare(s[0], x) > 0 then
      ConsSorted(x, s);
      [x] + s
    else
      var rest := Insert(s[1..], x);
      assert s == [s[0]] + s[1..];
      assert forall z :: z in rest ==> ReportKey(s[0]) <= ReportKey(z) by {
        forall z | z in rest ensures ReportKey(s[0]) <= ReportKey(z) {
          assert z in multiset(rest);
          if z != x {
            assert z in multiset(s[1..]);
          }
        }
      }
      ConsSorted(s[0], rest);
      [s[0]] + rest
  }

  /** `Stream.sorted(yearMonthComparison)`: the summaries sorted stably by the comparator. */
  function SortForReport(ms: seq<MonthStats>): (r: seq<MonthStats>)
    ensures Sorted(r)
    ensures multiset(r) == multiset(ms)
  {
    if |ms| == 0 then []
    else
      var init := ms[..|ms| - 1];
      assert ms == init + [ms[|ms| - 1]];
      Insert(SortForReport(init), ms[|ms| - 1])
  }

  /** Filtering a sequence extended by one summary extends the filtered sequence accordingly. */
  lemma {:induction false} WithKeySnoc(s: seq<MonthStats>, x: MonthStats, k: int)
    ensures WithKey(s + [x], k) == WithKey(s, k) + (if ReportKey(x) == k then [x] else [])
  {
    if |s| > 0 {
      assert (s + [x])[1..] == s[1..] + [x];
      WithKeySnoc(s[1..], x, k);
    } else {
      assert (s + [x])[1..] == [];
    }
  }

  /** Without a summary at key `k`, the filter at `k` is empty. */
  lemma {:induction false} WithKeyAbsent(s: seq<MonthStats>, k: int)
    requires forall i :: 0 <= i < |s| ==> ReportKey(s[i]) != k
    ensures WithKey(s, k) == []
  {
    if |s| > 0 {
      WithKeyAbsent(s[1..], k);
    }
  }

  lemma ConcatAssociative<T>(a: seq<T>, b: seq<T>, c: seq<T>)
    ensures a + (b + c) == (a + b) + c
  {
  }

  /** Insertion appends `x` to the summaries of its key and leaves the other keys alone. */
  lemma {:induction false} InsertStable(s: seq<MonthStats>, x: MonthStats, k: int)
    requires Sorted(s)
    ensures WithKey(Insert(s, x), k) == WithKey(s, k) + (if ReportKey(x) == k then [x] else [])
  {
    if |s| == 0 {
    } else if Compare(s[0], x) > 0 {
      var r := [x] + s;
      assert Insert(s, x) == r;
      assert r[0] == x && r[1..] == s;
      if ReportKey(x) == k {
        forall i | 0 <= i < |s| ensures ReportKey(s[i]) != k {
          assert ReportKey(s[0]) <= ReportKey(s[i]);
        }
        WithKeyAbsent(s, k);
      }
    } else {
      var rest := Insert(s[1..], x);
      var r := [s[0]] + rest;
      assert Insert(s, x) == r;
      assert r[0] == s[0] && r[1..] == rest;
      InsertStable(s[1..], x, k);
      var head := if ReportKey(s[0]) == k then [s[0]] else [];
      var tail := if ReportKey(x) == k then [x] else [];
      assert WithKey(r, k) == head + (WithKey(s[1..], k) + tail);
      assert WithKey(s, k) == head + WithKey(s[1..], k);
      ConcatAssociative(head, WithKey(s[1..], k), tail);
    }
  }

  /** Sorting keeps, for every key, the summaries of that key in their input order. */
  lemma {:induction false} SortStable(ms: seq<MonthStats>, k: int)
    ensures WithKey(SortForReport(ms), k) == WithKey(ms, k)
  {
    if |ms| > 0 {
      var init, x := ms[..|ms| - 1], ms[|ms| - 1];
      assert ms == init + [x];
      SortStable(init, k);
      InsertStable(SortForReport(init), x, k);
      WithKeySnoc(init, x, k);
    }
  }

  /** What the filter at `k` keeps comes from `s` and lies at `k`. */
  lemma {:induction false} WithKeyMembers(s: seq<MonthStats>, k: int)
    ensures forall z :: z in WithKey(s, k) ==> z in s && ReportKey(z) == k
  {
    if |s| > 0 {
      WithKeyMembers(s[1..], k);
    }
  }

  /** In a sorted sequence, nothing lies earlier than the first summary. */
  lemma LeastKey(s: seq<MonthStats>, k: int)
    requires Sorted(s) && |s| > 0
    ensures WithKey(s, k) != [] ==> ReportKey(s[0]) <= k
  {
    if WithKey(s, k) != [] {
      WithKeyMembers(s, k);
      var z := WithKey(s, k)[0];
      assert z in WithKey(s, k);
      var j :| 0 <= j < |s| && s[j] == z;
    }
  }

  /**
   A sorted sequence is determined by the order of its summaries within each key: two
   sorted sequences that agree on every key are equal. Hence every stable sort by this
   comparator, whatever its algorithm, returns what `SortForReport` returns.
   */
  lemma {:induction false} SortedStableUnique(a: seq<MonthStats>, b: seq<MonthStats>)
    requires Sorted(a) && Sorted(b)
    requires forall k :: WithKey(a, k) == WithKey(b, k)
    ensures a == b
    decreases |a|
  {
    FirstFiltered(a);
    FirstFiltered(b);
    if |a| > 0 && |b| > 0 {
      var k := ReportKey(a[0]);
      assert WithKey(a, k) == [a[0]] + WithKey(a[1..], k);
      assert WithKey(b, ReportKey(b[0])) == [b[0]] + WithKey(b[1..], ReportKey(b[0]));
      LeastKey(a, ReportKey(b[0]));
      LeastKey(b, k);
      assert ReportKey(b[0]) == k;
      assert WithKey(b, k) == [b[0]] + WithKey(b[1..], k);
      assert a[0] == WithKey(a, k)[0] == WithKey(b, k)[0] == b[0];
      forall k' ensures WithKey(a[1..], k') == WithKey(b[1..], k') {
        if k' == k {
          assert WithKey(a[1..], k) == WithKey(a, k)[1..];
          assert WithKey(b[1..], k) == WithKey(b, k)[1..];
        } else {
          assert WithKey(a, k') == WithKey(a[1..], k');
          assert WithKey(b, k') == WithKey(b[1..], k');
        }
      }
      SortedStableUnique(a[1..], b[1..]);
      assert a == [a[0]] + a[1..] && b == [b[0]] + b[1..];
    }
  }

  /** The first summary of a non-empty sequence is kept by the filter at its own key. */
  lemma FirstFiltered(s: seq<MonthStats>)
    ensures |s| > 0 ==> WithKey(s, ReportKey(s[0])) == [s[0]] + WithKey(s[1..], ReportKey(s[0]))
  {
  }

  /** `SortForReport` is the only sorted arrangement of `ms` that keeps each key's summaries in input order. */
  lemma SortIsUnique(ms: seq<MonthStats>, r: seq<MonthStats>)
    requires Sorted(r)
    requires forall k :: WithKey(r, k) == WithKey(ms, k)
    ensures r == SortForReport(ms)
  {
    forall k ensures WithKey(SortForReport(ms), k) == WithKey(ms, k) {
      SortStable(ms, k);
    }
    SortedStableUnique(r, SortForReport(ms));
  }

  /** A summary with every figure zero, for the given month and year. */
  function Blank(month: Month, year: int): MonthStats
  {
    MonthStatistics.MonthStats(0.0, 0.0, 0.0, 0.0, 0.0, 0.0, 0.0, [], [], 0, 0, 0.0, month, year)
  }

  /** January 2023 read before December 2022 is reported after it. */
  lemma DecemberBeforeJanuary()
    ensures SortForReport([Blank(JANUARY, 2023), Blank(DECEMBER, 2022)])
            == [Blank(DECEMBER, 2022), Blank(JANUARY, 2023)]
  {
    var jan, dec := Blank(JANUARY, 2023), Blank(DECEMBER, 2022);
    assert [jan, dec][..1] == [jan];
    assert [jan][..0] == [];
    assert SortForReport([jan]) == [jan];
  }
}
