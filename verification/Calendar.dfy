/** The Gregorian calendar of `Date`, without time zones, and the search for a date in season. */
module Calendar {
  import opened Options

  datatype Date = Date(year: int, month: int, day: int)

  predicate Leap(year: int) {
    year % 4 == 0 && (year % 100 != 0 || year % 400 == 0)
  }

  function DaysInMonth(year: int, month: int): (n: int)
    ensures 28 <= n <= 31
  {
    if month == 2 then (if Leap(year) then 29 else 28)
    else if month == 4 || month == 6 || month == 9 || month == 11 then 30
    else 31
  }

  predicate Valid(d: Date) {
    1 <= d.month <= 12 && 1 <= d.day <= DaysInMonth(d.year, d.month)
  }

  /** setDate(getDate() + 1), with its roll-over into the next month and year. */
  function NextDay(d: Date): (r: Date)
    requires Valid(d)
    ensures Valid(r)
  {
    if d.day < DaysInMonth(d.year, d.month) then Date(d.year, d.month, d.day + 1) else FirstOfNextMonth(d)
  }

  function FirstOfNextMonth(d: Date): (r: Date)
    requires Valid(d)
    ensures Valid(r)
  {
    if d.month < 12 then Date(d.year, d.month + 1, 1) else Date(d.year + 1, 1, 1)
  }

  function DaysLater(d: Date, n: nat): (r: Date)
    requires Valid(d)
    ensures Valid(r)
  {
    if n == 0 then d else NextDay(DaysLater(d, n - 1))
  }

  lemma {:induction false} DaysLaterAdds(d: Date, m: nat, n: nat)
    requires Valid(d)
    ensures DaysLater(DaysLater(d, m), n) == DaysLater(d, m + n)
  {
    if n > 0 {
      DaysLaterAdds(d, m, n - 1);
    }
  }

  // ----- day numbers -----

  function DaysBeforeYear(year: int): int {
    365 * (year - 1) + (year - 1) / 4 - (year - 1) / 100 + (year - 1) / 400
  }

  function DaysBeforeMonth(year: int, month: int): int
    requires 1 <= month <= 12
  {
    if month == 1 then 0 else DaysBeforeMonth(year, month - 1) + DaysInMonth(year, month - 1)
  }

  const EPOCH_DAY := 719162

  /** Days since 1 January 1970, by the leap-year rule rather than by counting. */
  function DayNumber(d: Date): int
    requires Valid(d)
  {
    DaysBeforeYear(d.year) + DaysBeforeMonth(d.year, d.month) + d.day - 1 - EPOCH_DAY
  }

  lemma FourthYears(year: int)
    ensures year / 4 - (year - 1) / 4 == if year % 4 == 0 then 1 else 0
  {
  }

  lemma Centuries(year: int)
    ensures year / 100 - (year - 1) / 100 == if year % 100 == 0 then 1 else 0
  {
    var c, rest := year / 100, year % 100;
    assert year == 100 * c + rest;
  }

  lemma CenturiesAreFourthYears(year: int)
    ensures year % 100 == 0 ==> year % 4 == 0
  {
    if year % 100 == 0 {
      assert year == 4 * (25 * (year / 100));
    }
  }

  lemma FourthCenturies(year: int)
    ensures year / 400 - (year - 1) / 400 == if year % 400 == 0 then 1 else 0
  {
    var c, rest := year / 400, year % 400;
    assert year == 400 * c + rest;
  }

  lemma FourthCenturiesAreCenturies(year: int)
    ensures year % 400 == 0 ==> year % 100 == 0
  {
    if year % 400 == 0 {
      assert year == 100 * (4 * (year / 400));
    }
  }

  lemma YearLength(year: int)
    ensures DaysBeforeYear(year + 1) == DaysBeforeYear(year) + (if Leap(year) then 366 else 365)
  {
    FourthYears(year);
    Centuries(year);
    CenturiesAreFourthYears(year);
    FourthCenturies(year);
    FourthCenturiesAreCenturies(year);
  }

  /** A closed form: days before each month, and the whole year. */
  lemma MonthTable(year: int, month: int)
    requires 1 <= month <= 12
    ensures var leapDay := if Leap(year) then 1 else 0;
            DaysBeforeMonth(year, month)
            == [0, 31, 59, 90, 120, 151, 181, 212, 243, 273, 304, 334][month - 1] + if month > 2 then leapDay else 0
  {
    if month > 1 {
      MonthTable(year, month - 1);
    }
  }

  lemma NextDayAddsOne(d: Date)
    requires Valid(d)
    ensures DayNumber(NextDay(d)) == DayNumber(d) + 1
  {
    if d.day == DaysInMonth(d.year, d.month) && d.month == 12 {
      MonthTable(d.year, 12);
      YearLength(d.year);
    }
  }

  lemma {:induction false} DaysLaterAddsDays(d: Date, n: nat)
    requires Valid(d)
    ensures DayNumber(DaysLater(d, n)) == DayNumber(d) + n
  {
    if n > 0 {
      DaysLaterAddsDays(d, n - 1);
      NextDayAddsOne(DaysLater(d, n - 1));
    }
  }

  lemma {:induction false} LaterYearsStartLater(a: int, b: int)
    requires a < b
    ensures DaysBeforeYear(b) >= DaysBeforeYear(a) + (if Leap(a) then 366 else 365)
    decreases b - a
  {
    YearLength(a);
    if a + 1 < b {
      LaterYearsStartLater(a + 1, b);
    }
  }

  /** A day number names one date: the calendar has neither gaps nor repeats. */
  lemma DayNumberIsInjective(a: Date, b: Date)
    requires Valid(a) && Valid(b) && DayNumber(a) == DayNumber(b)
    ensures a == b
  {
    MonthTable(a.year, a.month);
    MonthTable(b.year, b.month);
    if a.year < b.year {
      LaterYearsStartLater(a.year, b.year);
    } else if b.year < a.year {
      LaterYearsStartLater(b.year, a.year);
    }
  }

  const EPOCH := Date(1970, 1, 1)

  /** The date of a day counted from the epoch. */
  function DateOf(day: nat): (d: Date)
    ensures Valid(d)
  {
    DaysLater(EPOCH, day)
  }

  lemma DateOfIsTheDay(day: nat)
    ensures DayNumber(DateOf(day)) == day
  {
    DaysLaterAddsDays(EPOCH, day);
    MonthTable(1970, 1);
  }

  lemma DateOfInvertsDayNumber(d: Date)
    requires Valid(d) && DayNumber(d) >= 0
    ensures DateOf(DayNumber(d)) == d
  {
    DateOfIsTheDay(DayNumber(d));
    DayNumberIsInjective(DateOf(DayNumber(d)), d);
  }

  // ----- the season search -----

  predicate InSeason(month: int, activeMonths: Option<seq<int>>) {
    activeMonths.None? || month in activeMonths.value
  }

  const SEARCH_LIMIT := 370

  /** Days moved by the loop when `left` iterations remain. */
  function SearchFrom(d: Date, months: seq<int>, left: nat): nat
    requires Valid(d)
    decreases left
  {
    if left == 0 || d.month in months then 0 else 1 + SearchFrom(NextDay(d), months, left - 1)
  }

  function SeasonShift(d: Date, activeMonths: Option<seq<int>>): nat
    requires Valid(d)
  {
    if activeMonths.None? || activeMonths.value == [] then 0 else SearchFrom(d, activeMonths.value, SEARCH_LIMIT)
  }

  method MoveIntoActiveSeason(date: Date, activeMonths: Option<seq<int>>) returns (result: Date)
    requires Valid(date)
    ensures result == DaysLater(date, SeasonShift(date, activeMonths))
  {
    if activeMonths.None? || activeMonths.value == [] {
      return date;
    }
    var months := activeMonths.value;
    result := date;
    for days := 0 to SEARCH_LIMIT
      invariant result == DaysLater(date, days)
      invariant SearchFrom(date, months, SEARCH_LIMIT) == days + SearchFrom(result, months, SEARCH_LIMIT - days)
    {
      if result.month in months {
        return result;
      }
      result := NextDay(result);
    }
  }

  lemma {:induction false} WithinMonth(d: Date, n: nat)
    requires Valid(d) && d.day + n <= DaysInMonth(d.year, d.month)
    ensures DaysLater(d, n) == Date(d.year, d.month, d.day + n)
  {
    if n > 0 {
      WithinMonth(d, n - 1);
    }
  }

  /** Days before month m in a leap year; a year later adds 366. */
  function LongestBefore(m: int): int
    requires 1 <= m <= 12
  {
    [0, 31, 60, 91, 121, 152, 182, 213, 244, 274, 305, 335][m - 1]
  }

  function LongestWait(from: int, to: int): (n: int)
    requires 1 <= from <= 12 && 1 <= to <= 12
    ensures n <= 337
  {
    if from <= to then LongestBefore(to) - LongestBefore(from) else 366 + LongestBefore(to) - LongestBefore(from)
  }

  lemma WaitShrinks(d: Date, m: int)
    requires Valid(d) && 1 <= m <= 12 && d.month != m
    ensures var first := FirstOfNextMonth(d);
            DaysInMonth(d.year, d.month) + (if first.month == m then 0 else LongestWait(first.month, m))
                <= LongestWait(d.month, m)
  {
  }

  /** From any date, some day of month m lies at most 337 days ahead. */
  lemma {:induction false} MonthIsNear(d: Date, m: int) returns (n: nat)
    requires Valid(d) && 1 <= m <= 12
    ensures DaysLater(d, n).month == m
    ensures d.month == m ==> n == 0
    ensures d.month != m ==> n <= LongestWait(d.month, m) - (d.day - 1)
    decreases if d.month <= m then m - d.month else 12 + m - d.month
  {
    if d.month == m {
      n := 0;
    } else {
      var toEnd := DaysInMonth(d.year, d.month) - d.day;
      WithinMonth(d, toEnd);
      var first := FirstOfNextMonth(d);
      assert DaysLater(d, toEnd + 1) == first;
      WaitShrinks(d, m);
      var rest := MonthIsNear(first, m);
      DaysLaterAdds(d, toEnd + 1, rest);
      n := toEnd + 1 + rest;
    }
  }

  lemma {:induction false} SearchStopsAtFirst(d: Date, months: seq<int>, left: nat, n: nat)
    requires Valid(d) && n < left && DaysLater(d, n).month in months
    ensures var k := SearchFrom(d, months, left);
            && k <= n
            && DaysLater(d, k).month in months
            && forall j | 0 <= j < k :: DaysLater(d, j).month !in months
    decreases left
  {
    if d.month !in months {
      assert n > 0;
      DaysLaterAdds(d, 1, n - 1);
      assert DaysLater(d, 1) == NextDay(d);
      SearchStopsAtFirst(NextDay(d), months, left - 1, n - 1);
      var k := SearchFrom(NextDay(d), months, left - 1);
      DaysLaterAdds(d, 1, k);
      forall j | 0 <= j < k + 1
        ensures DaysLater(d, j).month !in months
      {
        if j > 0 {
          DaysLaterAdds(d, 1, j - 1);
        }
      }
    }
  }

  /** The search always succeeds: it returns the first date on or after the input whose month is active,
      at most 337 days ahead, so the loop never runs out. */
  lemma SeasonSearchSucceeds(d: Date, months: seq<int>, m: int)
    requires Valid(d) && 1 <= m <= 12 && m in months
    ensures var k := SeasonShift(d, Some(months));
            && k <= 337
            && DaysLater(d, k).month in months
            && forall j | 0 <= j < k :: DaysLater(d, j).month !in months
  {
    var n := MonthIsNear(d, m);
    assert n <= 337;
    SearchStopsAtFirst(d, months, SEARCH_LIMIT, n);
  }

  lemma {:induction false} SearchNeverSucceeds(d: Date, months: seq<int>, left: nat)
    requires Valid(d) && forall m | m in months :: m < 1 || m > 12
    ensures SearchFrom(d, months, left) == left
    decreases left
  {
    if left > 0 {
      SearchNeverSucceeds(NextDay(d), months, left - 1);
    }
  }

  /** Without a real month in the list the loop falls through, 370 days on. */
  lemma SeasonSearchFallsThrough(d: Date, months: seq<int>)
    requires Valid(d) && months != []
    ensures SeasonShift(d, Some(months)) == SEARCH_LIMIT <==> forall m | m in months :: m < 1 || m > 12
  {
    if forall m | m in months :: m < 1 || m > 12 {
      SearchNeverSucceeds(d, months, SEARCH_LIMIT);
    } else {
      var m :| m in months && 1 <= m <= 12;
      SeasonSearchSucceeds(d, months, m);
    }
  }

  /** The bound is reached: from 1 March to the next February. */
  lemma LongestSeasonWait(year: int)
    ensures SeasonShift(Date(year, 3, 1), Some([2])) == 337
  {
    var d := Date(year, 3, 1);
    SeasonSearchSucceeds(d, [2], 2);
    var k := SeasonShift(d, Some([2]));
    DaysLaterAddsDays(d, k);
    NextFebruary(d, DaysLater(d, k));
  }

  lemma NextFebruary(march: Date, r: Date)
    requires Valid(march) && march.month == 3 && march.day == 1
    requires Valid(r) && r.month == 2 && DayNumber(r) >= DayNumber(march)
    ensures DayNumber(r) >= DayNumber(march) + 337
  {
    YearLength(march.year);
    MonthTable(march.year, 3);
    MonthTable(r.year, 2);
    if r.year < march.year {
      LaterYearsStartLater(r.year, march.year);
    } else if r.year > march.year + 1 {
      LaterYearsStartLater(march.year + 1, r.year);
    }
  }
}
