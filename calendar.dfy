/** The proleptic Gregorian calendar walk of `NTPClient::date`: whole days
    since 1970-01-01 become a year, then a month, then a day of the month. */
module Calendar {
  import opened Arduino
  import opened NtpConfig

  const SecondsPerDay: nat := 86400

  /** LEAP_YEAR(Y): positive, divisible by 4, and not by 100 unless by 400. */
  predicate LeapYear(y: int)
  {
    y > 0 && y % 4 == 0 && (y % 100 != 0 || y % 400 == 0)
  }

  function YearLength(y: int): (n: nat)
    ensures n == 365 || n == 366
  {
    if LeapYear(y) then 366 else 365
  }

  /** The `monthDays` table (February is adjusted separately). */
  const MonthDays: seq<nat> := [31, 28, 31, 30, 31, 30, 31, 31, 30, 31, 30, 31]

  /** Length of month m (1 = January) in year y. */
  function MonthLength(y: int, m: int): (n: nat)
    requires 1 <= m <= 12
    ensures 28 <= n <= 31
    ensures m == 2 ==> (n == 29 <==> LeapYear(y))
  {
    if m == 2 then (if LeapYear(y) then 29 else 28) else MonthDays[m - 1]
  }

  /** Days in the years from..to-1. */
  function DaysInYears(from: int, to: int): nat
    decreases to - from
  {
    if to <= from then 0 else DaysInYears(from, to - 1) + YearLength(to - 1)
  }

  /** Days of the years 1970..y-1. */
  function DaysBeforeYear(y: int): nat
  {
    DaysInYears(1970, y)
  }

  /** Days of the months 1..m-1 of year y. */
  function DaysBeforeMonth(y: int, m: int): nat
    requires 1 <= m <= 13
    decreases m
  {
    if m == 1 then 0 else DaysBeforeMonth(y, m - 1) + MonthLength(y, m - 1)
  }

  /** A calendar date; month 1 is January, day 1 the first of the month. */
  datatype Date = Date(year: nat, month: nat, day: nat)

  /** A real date in or after 1970. */
  predicate ValidDate(d: Date)
  {
    d.year >= 1970 && 1 <= d.month <= 12 && 1 <= d.day <= MonthLength(d.year, d.month)
  }

  /** The day number of a date: days since 1970-01-01. */
  function DayNumber(d: Date): int
    requires ValidDate(d)
  {
    DaysBeforeYear(d.year) + DaysBeforeMonth(d.year, d.month) + d.day - 1
  }

  /** `d` is the date that lies `days` days after 1970-01-01. */
  predicate IsDateOf(days: int, d: Date)
  {
    ValidDate(d) && DayNumber(d) == days
  }

  /** The twelve months add up to the year. */
  lemma {:induction false} MonthsFillYear(y: int)
    ensures DaysBeforeMonth(y, 13) == YearLength(y)
  {
    assert DaysBeforeMonth(y, 2) == 31;
    assert DaysBeforeMonth(y, 3) == 31 + MonthLength(y, 2);
    assert DaysBeforeMonth(y, 4) == 62 + MonthLength(y, 2);
    assert DaysBeforeMonth(y, 5) == 92 + MonthLength(y, 2);
    assert DaysBeforeMonth(y, 6) == 123 + MonthLength(y, 2);
    assert DaysBeforeMonth(y, 7) == 153 + MonthLength(y, 2);
    assert DaysBeforeMonth(y, 8) == 184 + MonthLength(y, 2);
    assert DaysBeforeMonth(y, 9) == 215 + MonthLength(y, 2);
    assert DaysBeforeMonth(y, 10) == 245 + MonthLength(y, 2);
    assert DaysBeforeMonth(y, 11) == 276 + MonthLength(y, 2);
    assert DaysBeforeMonth(y, 12) == 306 + MonthLength(y, 2);
  }

  lemma {:induction false} DaysBeforeMonthMono(y: int, m1: int, m2: int)
    requires 1 <= m1 <= m2 <= 13
    ensures DaysBeforeMonth(y, m1) <= DaysBeforeMonth(y, m2)
    decreases m2 - m1
  {
    if m1 < m2 {
      DaysBeforeMonthMono(y, m1, m2 - 1);
    }
  }

  lemma {:induction false} DaysInYearsMono(from: int, y1: int, y2: int)
    requires from <= y1 <= y2
    ensures DaysInYears(from, y1) <= DaysInYears(from, y2)
    decreases y2 - y1
  {
    if y1 < y2 {
      DaysInYearsMono(from, y1, y2 - 1);
    }
  }

  /** A day within its month lies within its year. */
  lemma {:induction false} DayWithinYear(d: Date)
    requires ValidDate(d)
    ensures DaysBeforeMonth(d.year, d.month) + d.day - 1 < YearLength(d.year)
  {
    MonthsFillYear(d.year);
    DaysBeforeMonthMono(d.year, d.month + 1, 13);
  }

  /** Two dates with the same day number fall in the same year. */
  lemma {:induction false} SameDayNumberSameYear(d1: Date, d2: Date)
    requires ValidDate(d1) && ValidDate(d2) && DayNumber(d1) == DayNumber(d2)
    ensures d1.year == d2.year
  {
    DayWithinYear(d1);
    DayWithinYear(d2);
    if d1.year < d2.year {
      DaysInYearsMono(1970, d1.year + 1, d2.year);
    } else if d2.year < d1.year {
      DaysInYearsMono(1970, d2.year + 1, d1.year);
    }
  }

  /** An earlier month is over before a later one begins. */
  lemma {:induction false} MonthEndsBefore(y: int, m1: int, m2: int)
    requires 1 <= m1 < m2 <= 12
    ensures DaysBeforeMonth(y, m1) + MonthLength(y, m1) <= DaysBeforeMonth(y, m2)
  {
    DaysBeforeMonthMono(y, m1 + 1, m2);
    assert DaysBeforeMonth(y, m1 + 1) == DaysBeforeMonth(y, m1) + MonthLength(y, m1);
  }

  /** Within one year, two month-and-day pairs on the same day of the year
      are the same month. */
  lemma {:induction false} SameDayOfYearSameMonth(y: int, m1: int, day1: int, m2: int, day2: int)
    requires 1 <= m1 <= 12 && 1 <= day1 <= MonthLength(y, m1)
    requires 1 <= m2 <= 12 && 1 <= day2 <= MonthLength(y, m2)
    requires DaysBeforeMonth(y, m1) + day1 == DaysBeforeMonth(y, m2) + day2
    ensures m1 == m2
  {
    if m1 < m2 {
      MonthEndsBefore(y, m1, m2);
    } else if m2 < m1 {
      MonthEndsBefore(y, m2, m1);
    }
  }

  /** At most one date lies a given number of days after 1970-01-01. */
  lemma {:induction false} DateOfUnique(days: int, d1: Date, d2: Date)
    requires IsDateOf(days, d1) && IsDateOf(days, d2)
    ensures d1 == d2
  {
    SameDayNumberSameYear(d1, d2);
    SameDayOfYearSameMonth(d1.year, d1.month, d1.day, d2.month, d2.day);
  }

  /** The month-by-month walk within year y, from month m on, with d days
      left to place. */
  ghost function DateInYear(y: nat, m: int, d: nat): Date
    requires 1 <= m <= 12
    decreases 12 - m
  {
    if m == 12 || d < MonthLength(y, m) then Date(y, m, d + 1)
    else DateInYear(y, m + 1, d - MonthLength(y, m))
  }

  /** The year-by-year walk from year y on, with d days left to place. */
  ghost function DateFrom(y: nat, d: nat): Date
    decreases d
  {
    if d < YearLength(y) then DateInYear(y, 1, d)
    else DateFrom(y + 1, d - YearLength(y))
  }

  /** The date `days` days after 1970-01-01. */
  ghost function DateOf(days: nat): Date
  {
    DateFrom(1970, days)
  }

  lemma {:induction false} DateInYearCorrect(y: int, m: int, d: nat)
    requires y >= 1970 && 1 <= m <= 12
    requires DaysBeforeMonth(y, m) + d < YearLength(y)
    ensures var r := DateInYear(y, m, d);
      ValidDate(r) && r.year == y && DaysBeforeMonth(y, r.month) + r.day - 1 == DaysBeforeMonth(y, m) + d
    decreases 12 - m
  {
    var len := MonthLength(y, m);
    if m == 12 {
      MonthsFillYear(y);
      assert DaysBeforeMonth(y, 13) == DaysBeforeMonth(y, 12) + len;
    } else if d >= len {
      assert DaysBeforeMonth(y, m + 1) == DaysBeforeMonth(y, m) + len;
      DateInYearCorrect(y, m + 1, d - len);
    }
  }

  lemma {:induction false} DateFromCorrect(y: int, d: nat)
    requires y >= 1970
    ensures IsDateOf(DaysBeforeYear(y) + d, DateFrom(y, d))
    decreases d
  {
    if d < YearLength(y) {
      DateInYearCorrect(y, 1, d);
    } else {
      DateFromCorrect(y + 1, d - YearLength(y));
    }
  }

  /** DateOf yields the date that lies that many days after 1970-01-01. */
  lemma {:induction false} DateOfCorrect(days: nat)
    ensures IsDateOf(days, DateOf(days))
  {
    DateFromCorrect(1970, days);
  }

  /** Every date from 1970 on is recovered from its day number. */
  lemma {:induction false} DateOfDayNumber(d: Date)
    requires ValidDate(d)
    ensures DateOf(DayNumber(d)) == d
  {
    DateOfCorrect(DayNumber(d));
    DateOfUnique(DayNumber(d), d, DateOf(DayNumber(d)));
  }

  /** Every year from 1970 on has at least 365 days. */
  lemma {:induction false} DaysBeforeYearAtLeast(y: int)
    requires y >= 1970
    ensures DaysBeforeYear(y) >= 365 * (y - 1970)
    decreases y
  {
    if y > 1970 {
      DaysBeforeYearAtLeast(y - 1);
    }
  }

  /** Closed form of the days from 1900-01-01 to the start of year y
      (1900 is not a leap year; 2000 is). */
  lemma {:induction false} DaysSince1900(y: int)
    requires 1901 <= y <= 2100
    ensures DaysInYears(1900, y) == 365 * (y - 1900) + (y - 1901) / 4
    decreases y
  {
    if y > 1901 {
      DaysSince1900(y - 1);
      assert LeapYear(y - 1) <==> (y - 1) % 4 == 0;
    }
  }

  /** SEVENZYYEARS is the length of the Gregorian years 1900..1969 in
      seconds: the offset between the NTP and the Unix epoch. */
  lemma {:induction false} SeventyYearsGregorian()
    ensures SeventyYears == DaysInYears(1900, 1970) * SecondsPerDay
  {
    DaysSince1900(1970);
  }

  /** The year the walk reaches for an `unsigned long` second count is at
      most 2106, so it fits `uint16_t`, and month and day fit `uint8_t`. */
  lemma {:induction false} YearBound(secs: ULong, d: Date)
    requires IsDateOf(secs / SecondsPerDay, d)
    ensures d.year <= 2106 && d.month <= 12 && d.day <= 31
  {
    DaysBeforeYearAtLeast(d.year);
  }

  /** `date()`'s month walk: month lengths are subtracted from the day of
      the year until the rest fits in the current month. */
  method MonthOfYear(year: ULong, dayOfYear: ULong) returns (month: nat, rest: ULong)
    requires dayOfYear < YearLength(year)
    ensures month < 12 && rest < MonthLength(year, month + 1)
    ensures DaysBeforeMonth(year, month + 1) + rest == dayOfYear
  {
    rest := dayOfYear;
    MonthsFillYear(year);
    month := 0;
    while month < 12
      invariant month <= 12
      invariant rest + DaysBeforeMonth(year, month + 1) == dayOfYear
      decreases 12 - month
    {
      var monthLength := MonthLength(year, month + 1);
      if rest < monthLength {
        break;
      }
      rest := rest - monthLength;
      month := month + 1;
    }
    assert month < 12;
  }

  /** `date()`'s loops: the year walk accumulates `days` until it passes
      the day count, the month walk then places the rest of the days;
      year, month + 1 and rest + 1 are stored through the (`uint16_t`,
      `uint8_t`, `uint8_t`) output pointers. */
  method CivilDate(secs: ULong) returns (d: Date)
    ensures IsDateOf(secs / SecondsPerDay, d)
    ensures d.year <= 2106
  {
    var rawTime: ULong := secs / SecondsPerDay;
    ghost var total := rawTime;
    var year: ULong := 1970;
    var days: ULong := YearLength(year);
    while days <= rawTime
      invariant 1970 <= year <= 2106
      invariant days == DaysBeforeYear(year) + YearLength(year)
      invariant 365 * (year - 1970) <= DaysBeforeYear(year) <= rawTime
      decreases rawTime - days
    {
      year := year + 1;
      days := days + YearLength(year);
    }
    rawTime := rawTime - (days - YearLength(year));
    var month;
    month, rawTime := MonthOfYear(year, rawTime);
    d := Date(year, month + 1, rawTime + 1);
  }
}
