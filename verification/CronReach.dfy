/**
  How far cron_next of main/comp/cron/ccronexpr.cpp (lines 462-472 and 905-945) looks ahead: its
  year cut-off loses exactly the matches more than four years on, and only 29 February has such.
 */
module CronReach {
  import opened Calendar
  import opened CronSearch
  import opened CronCorrect

  // ----- A matching day in every year -----

  /** With one day field free, some day of every December matches in both. */
  lemma DecemberDay(e: Expr, y: int) returns (d: int)
    requires NonEmpty(e) && OneDayFree(e)
    ensures MonthOf(d) == 12 * y + 11 && DayHit(e, d)
  {
    var k := 12 * y + 11;
    SplitYearMonth(y, 11);
    if Full(e.daysOfWeek, 0, 7) {
      var m :| 1 <= m < 32 && Hit(e.daysOfMonth, m);
      d := MonthStart(k) + m - 1;
      DayInMonth(k, m);
    } else {
      d := DowWithinWeek(e, MonthStart(k));
      MonthStep(k);
      MonthOfUnique(d, k);
    }
  }

  /** The year of the minute with index i. */
  function MinuteYear(i: int): int {
    MonthOf(i / 1440) / 12
  }

  lemma MinuteYearMonotone(i: int, j: int)
    requires i <= j
    ensures MinuteYear(i) <= MinuteYear(j)
  {
    MonthOfMonotone(i / 1440, j / 1440);
  }

  lemma ClockMinute(d: int, h: int, m: int)
    requires 0 <= h < 24 && 0 <= m < 60
    ensures var j := d * 1440 + h * 60 + m; j / 60 % 24 == h && j / 1440 == d && j % 60 == m
  {
    var j := d * 1440 + h * 60 + m;
    assert j / 60 == d * 24 + h;
  }

  lemma DecemberMinute(e: Expr, y: int) returns (j: int)
    requires NonEmpty(e) && OneDayFree(e)
    ensures MinuteHit(e, j) && MonthStart(12 * y + 11) * 1440 <= j && MinuteYear(j) == y
  {
    var d := DecemberDay(e, y);
    var h :| 0 <= h < 24 && Hit(e.hours, h);
    var m :| 0 <= m < 60 && Hit(e.minutes, m);
    ClockMinute(d, h, m);
    SplitYearMonth(y, 11);
    j := d * 1440 + h * 60 + m;
  }

  /** So from a minute before the end of November, the next matching one is in the same year. */
  lemma NextMinuteYear(e: Expr, i: int, y: int)
    requires NonEmpty(e) && OneDayFree(e) && i <= MonthStart(12 * y + 11) * 1440
    ensures MinuteYear(NextMinute(e, i)) <= y
  {
    var j := DecemberMinute(e, y);
    assert NextMinute(e, i) <= j;
    MinuteYearMonotone(NextMinute(e, i), j);
  }

  // ----- Where the search ends -----

  lemma DoneInYear(e: Expr, x: int)
    requires NonEmpty(e) && OneDayFree(e) && OnePass(e, x).Done?
    ensures YearOf(OnePass(e, x).at) == MinuteYear(NextMinute(e, SettledMinute(e, x)))
  {
    DoneMatches(e, x);
    var z := OnePass(e, x).at;
    assert MinuteHit(e, z / 60) && z / 60 == SettledMinute(e, x);
    assert z / 86400 == z / 60 / 1440;
  }

  lemma MovedInYear(e: Expr, x: int)
    requires NonEmpty(e) && OnePass(e, x).Moved?
    ensures var y := OnePass(e, x).at;
            MinuteYear(NextMinute(e, SettledMinute(e, y))) <= MinuteYear(NextMinute(e, SettledMinute(e, x)))
  {
    MovedAdvances(e, x);
    MinuteYearMonotone(NextMinute(e, SettledMinute(e, OnePass(e, x).at)), NextMinute(e, SettledMinute(e, x)));
  }

  lemma StartOf(d: int, s: int)
    requires 0 <= s < 60
    ensures (d * 86400 + s) / 86400 == d
  {
  }

  lemma DayYear(d: int, s: int)
    requires 0 <= s < 60
    ensures YearOf(d * 86400 + s) == MonthOf(d) / 12
  {
    StartOf(d, s);
  }

  lemma DayMinute(e: Expr, d: int, s: int)
    requires NonEmpty(e) && 0 <= s < 60 && (s == 0 || Hit(e.seconds, s))
    ensures SettledMinute(e, d * 86400 + s) == d * 1440
  {
    SecondsStay(e, d * 1440, s);
    assert d * 1440 * 60 + s == d * 86400 + s;
  }

  /** From the first of a month on, a matching minute comes in the same year. */
  lemma MonthYear(e: Expr, r: int, y: int, d: int)
    requires NonEmpty(e) && OneDayFree(e) && r <= 12 * y + 11 && d == MonthStart(r)
    ensures MinuteYear(NextMinute(e, d * 1440)) <= y
  {
    MonthStartMonotone(r, 12 * y + 11);
    NextMinuteYear(e, d * 1440, y);
  }

  lemma LandingYear(e: Expr, d: int, s: int, year: int, y: int)
    requires NonEmpty(e) && OneDayFree(e) && 0 <= s < 60 && (s == 0 || Hit(e.seconds, s))
    requires MinuteYear(NextMinute(e, d * 1440)) <= year == MonthOf(d) / 12 && y == d * 86400 + s
    ensures MinuteYear(NextMinute(e, SettledMinute(e, y))) <= YearOf(y)
  {
    DayMinute(e, d, s);
    DayYear(d, s);
  }

  /** After a month move the search stays within the year it has come to. */
  lemma MonthMovedInYear(e: Expr, x: int, y: int)
    requires NonEmpty(e) && OneDayFree(e) && OnePass(e, x) == MonthMoved(y)
    ensures MinuteYear(NextMinute(e, SettledMinute(e, y))) <= YearOf(y)
  {
    var r, d, s, year := LandsAt(e, x, y);
    MonthYear(e, r, year, d);
    LandingYear(e, d, s, year, y);
  }

  lemma LandsAt(e: Expr, x: int, y: int) returns (r: int, d: int, s: int, year: int)
    requires NonEmpty(e) && OnePass(e, x) == MonthMoved(y)
    ensures y == d * 86400 + s && d == MonthStart(r) && 0 <= s < 60 && (s == 0 || Hit(e.seconds, s))
    ensures r <= 12 * year + 11 && year == MonthOf(d) / 12
  {
    MonthMovedAt(e, x);
    LeftSeconds(e, x);
    r, s := Landing(e, SettledDay(e, x)), SecondsLeft(e, x);
    d := MonthStart(r);
    StartOfMonth(r);
    year := r / 12;
    SplitMonth(r);
  }

  lemma LeftSeconds(e: Expr, x: int)
    requires NonEmpty(e)
    ensures var s := SecondsLeft(e, x); 0 <= s < 60 && (s == 0 || Hit(e.seconds, s))
  {
    SecondsSettle(e, x);
  }

  /** What do_next finds is no later than the fourth year, or than its first matching minute. */
  lemma {:induction false} FoundInReach(e: Expr, x: int, dot: int)
    requires NonEmpty(e) && OneDayFree(e) && DoNext(e, x, dot).Found?
    ensures var z := DoNext(e, x, dot).at;
            YearOf(z) <= dot + YEAR_LIMIT || YearOf(z) <= MinuteYear(NextMinute(e, SettledMinute(e, x)))
    decreases MonthsLeft(x, dot), MinutesToGo(e, x)
  {
    match OnePass(e, x)
    case Done(z) =>
      DoneInYear(e, x);
    case Moved(y) =>
      MovedDecreases(e, x, dot);
      FoundInReach(e, y, dot);
      MovedInYear(e, x);
    case MonthMoved(y) =>
      MonthMovedDecreases(e, x, dot);
      FoundInReach(e, y, dot);
      MonthMovedInYear(e, x, y);
  }

  lemma StartInYear(e: Expr, x: int)
    requires NonEmpty(e) && OneDayFree(e)
    ensures MinuteYear(NextMinute(e, SettledMinute(e, x))) <= YearOf(x) + 1
  {
    SecondsSettle(e, x);
    var k, y := MonthOf(x / 86400), YearOf(x) + 1;
    SplitMonth(k);
    MonthStartMonotone(k + 1, 12 * y + 11);
    NextMinuteYear(e, SettledMinute(e, x), y);
  }

  lemma SearchInReach(e: Expr, x: int)
    requires NonEmpty(e) && OneDayFree(e) && DoNext(e, x, YearOf(x)).Found?
    ensures YearOf(DoNext(e, x, YearOf(x)).at) <= YearOf(x) + YEAR_LIMIT
  {
    FoundInReach(e, x, YearOf(x));
    StartInYear(e, x);
  }

  // ----- The cut-off -----

  lemma LaterYear(x: int)
    ensures YearOf(x) <= YearOf(x + 1) <= YearOf(x) + 1
    ensures YearOf(x + 1) == YearOf(x) + 1 ==> MonthOf(x / 86400) % 12 == 11 && Mday(x / 86400) == 31
  {
    var d := x / 86400;
    var k := MonthOf(d);
    assert d <= (x + 1) / 86400 <= d + 1;
    SplitMonth(k);
    MonthStep(k);
    MonthStep(k + 1);
    if d + 1 < MonthStart(k + 1) {
      MonthOfUnique(d + 1, k);
    } else {
      MonthOfUnique(d + 1, k + 1);
    }
  }

  /** A match on the last day of a year recurs in the next. */
  lemma NewYearsEve(e: Expr, x: int, z: int)
    requires NonEmpty(e) && OneDayFree(e) && Match(e, x) && YearOf(x + 1) == YearOf(x) + 1 && IsNext(e, x, z)
    ensures YearOf(z) <= YearOf(x) + 1
  {
    LaterYear(x);
    assert x / 86400 == x / 60 / 1440;
    assert ShortestLength(11) == 31;
    var t := MatchInYear(e, YearOf(x) + 1);
    NextYearIsLater(x, t);
    YearMonotone(z, t);
  }

  /** What cron_next finds is no later than the fourth year, but for a search from the next year's first second. */
  lemma CronNextInReach(e: Expr, x: int)
    requires NonEmpty(e) && OneDayFree(e) && CronNext(e, x).Found?
    ensures var z := CronNext(e, x).at;
            YearOf(z) <= YearOf(x) + YEAR_LIMIT || (Match(e, x) && YearOf(z) <= YearOf(x + 1) + YEAR_LIMIT)
  {
    if DoNext(e, x, YearOf(x)) == Found(x) {
      DoNextSound(e, x, YearOf(x));
      SearchInReach(e, x + 1);
    } else {
      SearchInReach(e, x);
    }
  }

  lemma FoundIsNear(e: Expr, x: int, z: int)
    requires NonEmpty(e) && OneDayFree(e) && IsNext(e, x, z) && CronNext(e, x) == Found(z)
    ensures YearOf(z) <= YearOf(x) + YEAR_LIMIT
  {
    CronNextInReach(e, x);
    LaterYear(x);
    if Match(e, x) && YearOf(x + 1) != YearOf(x) {
      NewYearsEve(e, x, z);
    }
  }

  /**
    Under the conditions on seconds and months, cron_next returns the first later match if and only if
    that is no later than the fourth year after the start's.
   */
  lemma CutOff(e: Expr, x: int, z: int)
    requires NonEmpty(e) && OneDayFree(e) && SecondsOK(e) && MonthsOK(e) && IsNext(e, x, z)
    ensures CronNext(e, x) == Found(z) <==> YearOf(z) <= YearOf(x) + 4
  {
    if CronNext(e, x) == Found(z) {
      FoundIsNear(e, x, z);
    } else {
      CronNextLeast(e, x);
    }
  }

  // ----- 29 February -----

  /** Without a match in every year, only 29 February matches. */
  lemma OnlyLeapDays(e: Expr, t: int)
    requires NonEmpty(e) && !Yearly(e) && Match(e, t)
    ensures var d := t / 86400; MonthOf(d) % 12 == 1 && Mday(d) == 29 && Leap(YearOf(t))
  {
    var d := t / 86400;
    assert d == t / 60 / 1440;
    assert Mday(d) > ShortestLength(MonthOf(d) % 12);
  }

  /** The leap years around 2100, which is none. */
  lemma LeapYearsSkip(y: int)
    requires 196 < y && Leap(y)
    ensures y >= 204
  {
  }

  lemma LeapDay(y: int)
    requires Leap(y)
    ensures var d := MonthStart(12 * y + 1) + 28;
            MonthOf(d) == 12 * y + 1 && Mday(d) == 29 && MonthOf(d + 1) == 12 * y + 2
  {
    SplitYearMonth(y, 1);
    DayInMonth(12 * y + 1, 29);
    MonthStep(12 * y + 1);
    MonthStep(12 * y + 2);
    MonthOfUnique(MonthStart(12 * y + 1) + 29, 12 * y + 2);
  }

  /** The expression matches on every 29 February when it matches at all, and one day field is free. */
  lemma LeapDayMatches(e: Expr, t: int, y: int) returns (z: int)
    requires NonEmpty(e) && OneDayFree(e) && !Yearly(e) && Match(e, t) && Leap(y)
    ensures Match(e, z) && z / 86400 == MonthStart(12 * y + 1) + 28
  {
    OnlyLeapDays(e, t);
    LeapDay(y);
    assert t / 86400 == t / 60 / 1440;
    z := OnDay(e, MonthStart(12 * y + 1) + 28);
    SplitYearMonth(y, 1);
  }

  /** The last second of 29 February of year y. */
  function LastSecond(y: int): int {
    (MonthStart(12 * y + 1) + 28) * 86400 + 86399
  }

  lemma LastSecondIs(y: int)
    requires Leap(y)
    ensures var x := LastSecond(y);
            && x / 86400 == MonthStart(12 * y + 1) + 28 && (x + 1) / 86400 == MonthStart(12 * y + 1) + 29
            && YearOf(x) == y && YearOf(x + 1) == y && MonthOf((x + 1) / 86400) == 12 * y + 2
  {
    var d := MonthStart(12 * y + 1) + 28;
    LeapDay(y);
    ClockOf(d, 23, 59, 59);
    ClockOf(d + 1, 0, 0, 0);
    SplitYearMonth(y, 1);
    SplitYearMonth(y, 2);
  }

  lemma LaterMonth(y: int, z: int)
    requires Leap(y) && LastSecond(y) < z && MonthOf(z / 86400) % 12 == 1
    ensures YearOf(z) > y
  {
    LastSecondIs(y);
    MonthOfMonotone((LastSecond(y) + 1) / 86400, z / 86400);
    SplitMonth(MonthOf(z / 86400));
  }

  lemma OutOfReach(e: Expr, x: int, z: int)
    requires NonEmpty(e) && OneDayFree(e) && IsNext(e, x, z) && YearOf(z) > YearOf(x) + YEAR_LIMIT
    ensures CronNext(e, x) != Found(z)
  {
    if CronNext(e, x) == Found(z) {
      FoundIsNear(e, x, z);
    }
  }

  /** From the end of 29 February 2096 (year 196), the next match is in 2104, and cron_next does not return it. */
  lemma LeapDayLost(e: Expr, y: int) returns (x: int, z: int)
    requires NonEmpty(e) && OneDayFree(e) && !Yearly(e) && (exists t :: Match(e, t)) && y == 196
    ensures YearOf(x) == y && IsNext(e, x, z) && CronNext(e, x) != Found(z)
  {
    var t :| Match(e, t);
    x := LastSecond(y);
    LastSecondIs(y);
    var bound := LaterLeapDay(e, t, y);
    z := FirstMatch(e, x, bound);
    OnlyLeapDays(e, z);
    LaterMonth(y, z);
    LeapYearsSkip(YearOf(z));
    OutOfReach(e, x, z);
  }

  lemma LaterLeapDay(e: Expr, t: int, y: int) returns (z: int)
    requires NonEmpty(e) && OneDayFree(e) && !Yearly(e) && Match(e, t) && y == 196
    ensures Match(e, z) && LastSecond(y) < z
  {
    z := LeapDayMatches(e, t, y + 8);
    MonthStartMonotone(12 * y + 1, 12 * (y + 8) + 1);
  }

  /**
    The exact condition for every expression with one unrestricted day field: cron_next returns the
    first later match from every instant, where there is one, exactly when nothing ever matches, or
    every year has a match, the seconds are unbroken (or alone restricted) and no month can be overshot.
   */
  lemma AlwaysExact(e: Expr)
    requires NonEmpty(e) && OneDayFree(e)
    ensures (forall x, z :: IsNext(e, x, z) ==> CronNext(e, x) == Found(z))
            <==> (forall t :: !Match(e, t)) || (Yearly(e) && SecondsOK(e) && MonthsOK(e))
  {
    if Yearly(e) {
      CronNextExact(e);
      var z := MatchInYear(e, 0);
    } else if exists t :: Match(e, t) {
      var x, z := LeapDayLost(e, 196);
    }
  }
}
