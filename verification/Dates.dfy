/**
  The calendar of the cron engine by the Gregorian rules in closed form, and some dates by their numbers:
  years here are counted from the year 0, months from 1, and Sunday is 0.
 */
module Dates {
  import opened Calendar
  import opened CronSearch

  /** The day on which a year begins: every fourth is a leap year, but for hundreds that are not four hundreds. */
  function FirstDay(g: int): int {
    365 * (g - 1970) + (g - 1969) / 4 - (g - 1901) / 100 + (g - 1601) / 400
  }

  predicate IsLeap(g: int) {
    g % 4 == 0 && (g % 100 != 0 || g % 400 == 0)
  }

  lemma Quarter(g: int)
    ensures (g - 1968) / 4 == (g - 1969) / 4 + if g % 4 == 0 then 1 else 0
  {
  }

  lemma Hundred(g: int)
    ensures (g - 1900) / 100 == (g - 1901) / 100 + if g % 100 == 0 then 1 else 0
  {
  }

  lemma FourHundred(g: int)
    ensures (g - 1600) / 400 == (g - 1601) / 400 + if g % 400 == 0 then 1 else 0
  {
  }

  lemma Divides(g: int)
    ensures g % 400 == 0 ==> g % 100 == 0
    ensures g % 100 == 0 ==> g % 4 == 0
  {
    if g % 400 == 0 {
      Hundreds(4 * (g / 400));
    }
    if g % 100 == 0 {
      Hundreds(g / 100);
    }
  }

  lemma Hundreds(k: int)
    ensures 100 * k % 100 == 0 && 100 * k % 4 == 0
  {
    assert 100 * k == 4 * (25 * k);
  }

  lemma NextFirstDay(g: int)
    ensures FirstDay(g + 1) == FirstDay(g) + if IsLeap(g) then 366 else 365
  {
    Quarter(g);
    Hundred(g);
    FourHundred(g);
    Divides(g);
  }

  /** The concatenation of months is the closed form. */
  lemma {:induction false} YearBegins(g: int)
    ensures NewYear(g - 1900) == FirstDay(g)
    decreases if g < 1970 then 1970 - g else g - 1970
  {
    if g > 1970 {
      YearBegins(g - 1);
      YearStep(g - 1 - 1900);
      NextFirstDay(g - 1);
    } else if g < 1970 {
      YearBegins(g + 1);
      YearStep(g - 1900);
      NextFirstDay(g);
    } else {
      assert 12 * (g - 1900) == EPOCH_MONTH;
    }
  }

  /** The days before a month in a year that is no leap year. */
  function Before(m: int): int {
    if m == 1 then 0 else if m == 2 then 31 else if m == 3 then 59 else if m == 4 then 90
    else if m == 5 then 120 else if m == 6 then 151 else if m == 7 then 181 else if m == 8 then 212
    else if m == 9 then 243 else if m == 10 then 273 else if m == 11 then 304 else 334
  }

  /** The number of a date. */
  function DayNumber(g: int, m: int, d: int): int {
    FirstDay(g) + Before(m) + (if m > 2 && IsLeap(g) then 1 else 0) + d - 1
  }

  lemma {:induction false} MonthBegins(g: int, m: int)
    requires 1 <= m <= 12
    ensures MonthStart(12 * (g - 1900) + m - 1) == DayNumber(g, m, 1)
    decreases m
  {
    if m == 1 {
      YearBegins(g);
    } else {
      MonthBegins(g, m - 1);
      MonthInYear(g - 1900, m - 2);
    }
  }

  /** What mktime makes of a date and a time of day, in seconds since 1970. */
  lemma DateMeans(g: int, m: int, d: int, h: int, min: int, s: int)
    requires 1 <= m <= 12
    ensures ToInstant(Broken(g - 1900, m - 1, d, h, min, s))
            == DayNumber(g, m, d) * 86400 + h * 3600 + min * 60 + s
  {
    MonthBegins(g, m);
  }

  /** What localtime_r makes of the seconds, when the day is one of its month. */
  lemma DateOf(g: int, m: int, d: int, h: int, min: int, s: int)
    requires 1 <= m <= 12 && 0 <= h < 24 && 0 <= min < 60 && 0 <= s < 60
    requires 1 <= d <= if m == 2 then (if IsLeap(g) then 29 else 28) else if m in {4, 6, 9, 11} then 30 else 31
    ensures FromInstant(DayNumber(g, m, d) * 86400 + h * 3600 + min * 60 + s)
            == Broken(g - 1900, m - 1, d, h, min, s)
  {
    DateMeans(g, m, d, h, min, s);
    SplitYearMonth(g - 1900, m - 1);
    ToFromInstant(Broken(g - 1900, m - 1, d, h, min, s));
  }

  /** Thursday, 1 January 1970; Monday, 28 September 2009; a leap day in 2000, and none in 1900 and 2100. */
  lemma KnownDates()
    ensures DayNumber(1970, 1, 1) == 0 && Wday(0) == 4
    ensures DayNumber(2009, 9, 28) == 14515 && Wday(14515) == 1
    ensures DayNumber(2000, 3, 1) - DayNumber(2000, 2, 28) == 2
    ensures DayNumber(1900, 3, 1) - DayNumber(1900, 2, 28) == DayNumber(2100, 3, 1) - DayNumber(2100, 2, 28) == 1
  {
  }
}
